/**
 * Any number of replicas start, crash and restart at once and must all come to hold the same MAC root.
 * They share one table: read it, generate and seal a root, insert it if the table is empty, read again.
 */
module MacRoot {
  import opened Wrappers
  import opened Contexts

  datatype CustodyPair = CustodyPair(providerId: Bytes, formatVersion: nat)

  datatype Row = Row(providerId: Bytes, formatVersion: int, contextVersion: int, envelope: Bytes)

  datatype StartupError =
    UnsupportedPersistedCustody | InvalidCustodyMetadata | SecretServiceFailed | RowMissing | Interrupted

  /** The custody service: sealing draws a nonce, and both directions authenticate the context's bytes. */
  datatype Custody = Custody(seal: (Bytes, Bytes, nat) -> Bytes, open: (Bytes, Bytes) -> Option<Bytes>)

  datatype Replica = Replica(writePair: CustodyPair, supported: set<CustodyPair>)

  datatype Deployment = Deployment(installationId: Bytes, replicas: seq<Replica>, custody: Custody)

  const ROOT_LENGTH: nat := 32
  const MAX_ENVELOPE: nat := 1_048_576
  const I32_BOUND: nat := 0x8000_0000

  function Ascii(text: string): (bytes: Bytes)
    ensures |bytes| == |text|
    ensures forall i :: 0 <= i < |text| ==> bytes[i] == text[i] as int % 256
  {
    seq(|text|, i requires 0 <= i < |text| => text[i] as int % 256)
  }

  predicate ValidPair(pair: CustodyPair) {
    Bounded(pair.providerId, 128, ProviderByte) && 0 < pair.formatVersion < U32_BOUND
  }

  function RootParts(installationId: Bytes, pair: CustodyPair): Parts {
    Parts(installationId, System, Ascii("019b25d7-ef79-7000-8000-000000000002"), Ascii("system_secret_authority"),
          Ascii("019b25d7-ef79-7000-8000-000000000001"), 1, 1, Ascii("server_mac_root"),
          pair.providerId, pair.formatVersion)
  }

  function RootContext(deployment: Deployment, pair: CustodyPair): Bytes {
    Encode(RootParts(deployment.installationId, pair))
  }

  /** Opening a sealed root under the very context of sealing gives it back; nothing else is ever sealed here. */
  ghost predicate OpenInvertsSeal(custody: Custody) {
    forall context, plaintext, nonce | |plaintext| == ROOT_LENGTH ::
      var envelope := custody.seal(context, plaintext, nonce);
      0 < |envelope| <= MAX_ENVELOPE && custody.open(context, envelope) == Some(plaintext)
  }

  ghost predicate WellConfigured(deployment: Deployment) {
    && OpenInvertsSeal(deployment.custody)
    && forall r :: 0 <= r < |deployment.replicas| ==> ValidPair(deployment.replicas[r].writePair)
  }

  function SealRow(deployment: Deployment, replica: Replica, root: Bytes, nonce: nat): Result<Row, StartupError> {
    var pair := replica.writePair;
    if pair !in replica.supported then Err(SecretServiceFailed)
    else if pair.formatVersion >= I32_BOUND then Err(InvalidCustodyMetadata)
    else Ok(Row(pair.providerId, pair.formatVersion, 1,
                deployment.custody.seal(RootContext(deployment, pair), root, nonce)))
  }

  function OpenRow(deployment: Deployment, replica: Replica, row: Row): Result<Bytes, StartupError> {
    if row.contextVersion != 1 then Err(UnsupportedPersistedCustody)
    else if row.formatVersion < 0 || !ValidPair(CustodyPair(row.providerId, row.formatVersion)) then
      Err(InvalidCustodyMetadata)
    else if !(0 < |row.envelope| <= MAX_ENVELOPE) then Err(InvalidCustodyMetadata)
    else
      var pair := CustodyPair(row.providerId, row.formatVersion);
      if pair !in replica.supported then Err(SecretServiceFailed)
      else match deployment.custody.open(RootContext(deployment, pair), row.envelope)
        case None => Err(SecretServiceFailed)
        case Some(root) => if |root| == ROOT_LENGTH then Ok(root) else Err(InvalidCustodyMetadata)
  }

  /** The check of every persisted pair before a replica looks for the root. */
  function CheckRow(replica: Replica, row: Option<Row>): Option<StartupError> {
    if row.None? then None
    else if row.value.formatVersion < 0
         || !ValidPair(CustodyPair(row.value.providerId, row.value.formatVersion))
    then Some(InvalidCustodyMetadata)
    else if row.value.contextVersion != 1
         || CustodyPair(row.value.providerId, row.value.formatVersion) !in replica.supported
    then Some(UnsupportedPersistedCustody)
    else None
  }

  // ---- The steps of the replicas ---------------------------------------------------------------------

  datatype Phase =
    | Idle
    | Checked
    | FoundNothing
    | Generated(root: Bytes)
    | Sealed(root: Bytes, row: Row)
    | LostTheRace
    | Opening(row: Row)
    | Started(root: Bytes)
    | Failed(error: StartupError)

  /** The table, every row that was ever inserted, where each replica stands, and every root ever served. */
  datatype State = State(row: Option<Row>, inserted: seq<Row>, phases: seq<Phase>, served: seq<Bytes>)

  datatype Action =
    | Check(r: nat)
    | Read(r: nat)
    | Generate(r: nat, bytes: Bytes)
    | Seal(r: nat, nonce: nat)
    | Insert(r: nat, acknowledged: bool)
    | Reread(r: nat)
    | Open(r: nat)
    | Fault(r: nat, error: StartupError)
    | Restart(r: nat)

  function Initial(deployment: Deployment): State {
    State(None, [], seq(|deployment.replicas|, _ => Idle), [])
  }

  function Move(state: State, r: nat, phase: Phase): State
    requires r < |state.phases|
  {
    state.(phases := state.phases[r := phase])
  }

  function Finish(state: State, r: nat, result: Result<Bytes, StartupError>): State
    requires r < |state.phases|
  {
    match result
    case Ok(root) => Move(state, r, Started(root)).(served := state.served + [root])
    case Err(error) => Move(state, r, Failed(error))
  }

  /** One atomic step of one replica. An action that the replica is not ready for changes nothing. */
  function Apply(deployment: Deployment, state: State, action: Action): State {
    var r := action.r;
    if r >= |deployment.replicas| || r >= |state.phases| then state
    else
      var replica := deployment.replicas[r];
      match (action, state.phases[r])
      case (Restart(_), _) => Move(state, r, Idle)
      case (Fault(_, error), phase) => if phase.Started? then state else Move(state, r, Failed(error))
      case (Check(_), Idle) =>
        var problem := CheckRow(replica, state.row);
        Move(state, r, if problem.None? then Checked else Failed(problem.value))
      case (Read(_), Checked) =>
        Move(state, r, if state.row.None? then FoundNothing else Opening(state.row.value))
      case (Generate(_, bytes), FoundNothing) =>
        if |bytes| == ROOT_LENGTH then Move(state, r, Generated(bytes)) else state
      case (Seal(_, nonce), Generated(root)) =>
        var sealed := SealRow(deployment, replica, root, nonce);
        Move(state, r, if sealed.Ok? then Sealed(root, sealed.value) else Failed(sealed.error))
      case (Insert(_, acknowledged), Sealed(root, row)) =>
        if state.row.Some? then Move(state, r, if acknowledged then LostTheRace else Failed(Interrupted))
        else
          var stored := state.(row := Some(row), inserted := state.inserted + [row]);
          if acknowledged then Finish(stored, r, Ok(root)) else Move(stored, r, Failed(Interrupted))
      case (Reread(_), LostTheRace) =>
        Move(state, r, if state.row.None? then Failed(RowMissing) else Opening(state.row.value))
      case (Open(_), Opening(row)) => Finish(state, r, OpenRow(deployment, replica, row))
      case _ => state
  }

  function Run(deployment: Deployment, state: State, actions: seq<Action>): State
    decreases actions
  {
    if actions == [] then state else Run(deployment, Apply(deployment, state, actions[0]), actions[1..])
  }

  // ---- Agreement -------------------------------------------------------------------------------------

  /** The row opens, under the context that its own stored pair rebuilds, to exactly this root. */
  ghost predicate Holds(deployment: Deployment, row: Row, root: Bytes) {
    && row.contextVersion == 1
    && 0 <= row.formatVersion
    && ValidPair(CustodyPair(row.providerId, row.formatVersion))
    && 0 < |row.envelope| <= MAX_ENVELOPE
    && |root| == ROOT_LENGTH
    && deployment.custody.open(RootContext(deployment, CustodyPair(row.providerId, row.formatVersion)), row.envelope)
       == Some(root)
  }

  ghost predicate PhaseFits(deployment: Deployment, state: State, phase: Phase) {
    match phase
    case Generated(root) => |root| == ROOT_LENGTH
    case Sealed(root, row) => Holds(deployment, row, root)
    case LostTheRace => state.row.Some?
    case Opening(row) => state.row == Some(row)
    case Started(root) => root in state.served
    case Failed(error) => true
    case _ => true
  }

  ghost predicate Agreed(deployment: Deployment, state: State) {
    && |state.phases| == |deployment.replicas|
    && state.inserted == (if state.row.None? then [] else [state.row.value])
    && (state.row.Some? ==> exists root :: Holds(deployment, state.row.value, root))
    && (forall root | root in state.served :: state.row.Some? && Holds(deployment, state.row.value, root))
    && (forall r :: 0 <= r < |state.phases| ==> PhaseFits(deployment, state, state.phases[r]))
  }

  lemma SealedRowHolds(deployment: Deployment, replica: Replica, root: Bytes, nonce: nat)
    requires OpenInvertsSeal(deployment.custody) && ValidPair(replica.writePair)
    requires |root| == ROOT_LENGTH && SealRow(deployment, replica, root, nonce).Ok?
    ensures Holds(deployment, SealRow(deployment, replica, root, nonce).value, root)
  {
  }

  lemma OpenedRowHolds(deployment: Deployment, replica: Replica, row: Row)
    requires OpenRow(deployment, replica, row).Ok?
    ensures Holds(deployment, row, OpenRow(deployment, replica, row).value)
  {
  }

  lemma MoveKeeps(deployment: Deployment, state: State, r: nat, phase: Phase)
    requires Agreed(deployment, state) && r < |state.phases| && PhaseFits(deployment, state, phase)
    ensures Agreed(deployment, Move(state, r, phase))
  {
  }

  lemma FinishKeeps(deployment: Deployment, state: State, r: nat, result: Result<Bytes, StartupError>)
    requires Agreed(deployment, state) && r < |state.phases|
    requires result.Ok? ==> state.row.Some? && Holds(deployment, state.row.value, result.value)
    ensures Agreed(deployment, Finish(state, r, result))
  {
  }

  lemma InsertKeeps(deployment: Deployment, state: State, row: Row, root: Bytes)
    requires Agreed(deployment, state) && state.row.None? && Holds(deployment, row, root)
    ensures Agreed(deployment, state.(row := Some(row), inserted := state.inserted + [row]))
  {
  }

  lemma OpenKeeps(deployment: Deployment, state: State, r: nat)
    requires Agreed(deployment, state) && r < |state.phases| && state.phases[r].Opening?
    ensures Agreed(deployment, Apply(deployment, state, Open(r)))
  {
  }

  lemma InsertStepKeeps(deployment: Deployment, state: State, r: nat, acknowledged: bool)
    requires Agreed(deployment, state) && r < |state.phases| && state.phases[r].Sealed?
    ensures Agreed(deployment, Apply(deployment, state, Insert(r, acknowledged)))
  {
    var Sealed(root, row) := state.phases[r];
    assert PhaseFits(deployment, state, state.phases[r]);
    if state.row.Some? {
      MoveKeeps(deployment, state, r, if acknowledged then LostTheRace else Failed(Interrupted));
    } else {
      InsertKeeps(deployment, state, row, root);
      var stored := state.(row := Some(row), inserted := state.inserted + [row]);
      FinishKeeps(deployment, stored, r, if acknowledged then Ok(root) else Err(Interrupted));
    }
  }

  lemma SealKeeps(deployment: Deployment, state: State, r: nat, nonce: nat)
    requires WellConfigured(deployment) && Agreed(deployment, state)
    requires r < |state.phases| && state.phases[r].Generated?
    ensures Agreed(deployment, Apply(deployment, state, Seal(r, nonce)))
  {
  }

  /** Every other step only moves its replica, to a phase that says little. */
  lemma OtherStepKeeps(deployment: Deployment, state: State, action: Action)
    requires Agreed(deployment, state) && action.r < |state.phases|
    requires !(action.Open? && state.phases[action.r].Opening?)
    requires !(action.Insert? && state.phases[action.r].Sealed?)
    requires !(action.Seal? && state.phases[action.r].Generated?)
    ensures Agreed(deployment, Apply(deployment, state, action))
  {
  }

  lemma StoredRowStays(deployment: Deployment, state: State, action: Action)
    ensures state.row.Some? ==> Apply(deployment, state, action).row == state.row
    ensures state.served <= Apply(deployment, state, action).served
  {
  }

  lemma StepKeepsAgreement(deployment: Deployment, state: State, action: Action)
    requires WellConfigured(deployment) && Agreed(deployment, state)
    ensures Agreed(deployment, Apply(deployment, state, action))
    ensures state.row.Some? ==> Apply(deployment, state, action).row == state.row
    ensures state.served <= Apply(deployment, state, action).served
  {
    StoredRowStays(deployment, state, action);
    if action.r < |state.phases| {
      match (action, state.phases[action.r]) {
        case (Open(r), Opening(_)) => OpenKeeps(deployment, state, r);
        case (Insert(r, acknowledged), Sealed(_, _)) => InsertStepKeeps(deployment, state, r, acknowledged);
        case (Seal(r, nonce), Generated(_)) => SealKeeps(deployment, state, r, nonce);
        case _ => OtherStepKeeps(deployment, state, action);
      }
    }
  }

  lemma {:induction false} RunKeepsAgreement(deployment: Deployment, state: State, actions: seq<Action>)
    requires WellConfigured(deployment) && Agreed(deployment, state)
    ensures var end := Run(deployment, state, actions);
            Agreed(deployment, end) && state.served <= end.served && (state.row.Some? ==> end.row == state.row)
    decreases actions
  {
    if actions != [] {
      StepKeepsAgreement(deployment, state, actions[0]);
      RunKeepsAgreement(deployment, Apply(deployment, state, actions[0]), actions[1..]);
    }
  }

  /**
   * In every interleaving of starts, crashes and restarts at most one root row is ever inserted, and
   * every root that any replica ever starts with is the plaintext of that row, so all of them are equal.
   * A replica that lost the insertion race always finds the winner's row.
   */
  lemma ReplicasAgreeOnOneRoot(deployment: Deployment, actions: seq<Action>)
    requires WellConfigured(deployment)
    ensures var end := Run(deployment, Initial(deployment), actions);
            && |end.inserted| <= 1
            && (forall root | root in end.served :: |end.inserted| == 1 && Holds(deployment, end.inserted[0], root))
            && (forall a, b | a in end.served && b in end.served :: a == b)
            && (forall r :: 0 <= r < |end.phases| && end.phases[r].Started? ==> end.phases[r].root in end.served)
            && (forall r :: 0 <= r < |end.phases| && end.phases[r] == LostTheRace ==> end.row.Some?)
  {
    RunKeepsAgreement(deployment, Initial(deployment), actions);
    var end := Run(deployment, Initial(deployment), actions);
    forall r | 0 <= r < |end.phases|
      ensures end.phases[r].Started? ==> end.phases[r].root in end.served
      ensures end.phases[r] == LostTheRace ==> end.row.Some?
    {
      assert PhaseFits(deployment, end, end.phases[r]);
    }
  }

  predicate Supports(replica: Replica, row: Row) {
    row.formatVersion >= 0 && CustodyPair(row.providerId, row.formatVersion) in replica.supported
  }

  lemma FourSteps(deployment: Deployment, state: State, a: Action, b: Action, c: Action, d: Action)
    ensures Run(deployment, state, [a, b, c, d])
         == Apply(deployment, Apply(deployment, Apply(deployment, Apply(deployment, state, a), b), c), d)
  {
    assert [a, b, c, d][1..] == [b, c, d] && [b, c, d][1..] == [c, d] && [c, d][1..] == [d] && [d][1..] == [];
    var after := Apply(deployment, Apply(deployment, state, a), b);
    assert Run(deployment, state, [a, b, c, d]) == Run(deployment, after, [c, d]);
    assert Run(deployment, after, [c, d]) == Run(deployment, Apply(deployment, after, c), [d]);
  }

  /** After any history, a replica that supports the row's pair and is left alone starts with the agreed root. */
  lemma UndisturbedRestartFindsTheRoot(deployment: Deployment, history: seq<Action>, r: nat)
    requires WellConfigured(deployment) && r < |deployment.replicas|
    requires var before := Run(deployment, Initial(deployment), history);
             before.row.Some? && Supports(deployment.replicas[r], before.row.value)
    ensures var before := Run(deployment, Initial(deployment), history);
            var end := Run(deployment, before, [Restart(r), Check(r), Read(r), Open(r)]);
            && r < |end.phases| && end.phases[r].Started?
            && Holds(deployment, before.row.value, end.phases[r].root)
  {
    RunKeepsAgreement(deployment, Initial(deployment), history);
    var before := Run(deployment, Initial(deployment), history);
    FourSteps(deployment, before, Restart(r), Check(r), Read(r), Open(r));
    SupportedRowOpens(deployment, deployment.replicas[r], before.row.value);
    var opening := Apply(deployment, Apply(deployment, Apply(deployment, before, Restart(r)), Check(r)), Read(r));
    assert opening.phases[r] == Opening(before.row.value);
  }

  lemma SupportedRowOpens(deployment: Deployment, replica: Replica, row: Row)
    requires exists root :: Holds(deployment, row, root)
    requires Supports(replica, row)
    ensures CheckRow(replica, Some(row)).None?
    ensures OpenRow(deployment, replica, row).Ok?
    ensures Holds(deployment, row, OpenRow(deployment, replica, row).value)
  {
  }

  lemma {:induction false} RunsCompose(deployment: Deployment, state: State, first: seq<Action>, second: seq<Action>)
    ensures Run(deployment, state, first + second) == Run(deployment, Run(deployment, state, first), second)
    decreases first
  {
    if first == [] {
      assert first + second == second;
    } else {
      assert (first + second)[1..] == first[1..] + second;
      RunsCompose(deployment, Apply(deployment, state, first[0]), first[1..], second);
    }
  }

  function FirstStart(r: nat, random: Bytes, nonce: nat): seq<Action> {
    [Restart(r), Check(r), Read(r), Generate(r, random)] + [Seal(r, nonce), Insert(r, true)]
  }

  lemma TwoSteps(deployment: Deployment, state: State, a: Action, b: Action)
    ensures Run(deployment, state, [a, b]) == Apply(deployment, Apply(deployment, state, a), b)
  {
    assert [a, b][1..] == [b] && [b][1..] == [];
    assert Run(deployment, Apply(deployment, state, a), [b]) == Apply(deployment, Apply(deployment, state, a), b);
  }

  /** A replica that holds a generated root seals it and, with the table empty, inserts it and starts. */
  lemma GeneratedRootIsInserted(deployment: Deployment, state: State, r: nat, random: Bytes, nonce: nat)
    requires WellConfigured(deployment) && Agreed(deployment, state) && r < |state.phases|
    requires state.row.None? && state.phases[r] == Generated(random) && |random| == ROOT_LENGTH
    ensures var end, replica := Run(deployment, state, [Seal(r, nonce), Insert(r, true)]), deployment.replicas[r];
            && r < |end.phases|
            && (end.phases[r] == Started(random) <==>
                replica.writePair in replica.supported && replica.writePair.formatVersion < I32_BOUND)
            && (if end.phases[r] == Started(random) then
                  end.row.Some? && end.inserted == [end.row.value] && Holds(deployment, end.row.value, random)
                else end.row == None && end.phases[r].Failed?)
  {
    var sealed := SealRow(deployment, deployment.replicas[r], random, nonce);
    TwoSteps(deployment, state, Seal(r, nonce), Insert(r, true));
    if sealed.Ok? {
      SealedRowHolds(deployment, deployment.replicas[r], random, nonce);
      assert Apply(deployment, state, Seal(r, nonce)) == Move(state, r, Sealed(random, sealed.value));
    } else {
      assert Apply(deployment, state, Seal(r, nonce)) == Move(state, r, Failed(sealed.error));
    }
  }

  /**
   * After any history that left the table empty, a replica left alone inserts its own root and starts with it
   * exactly when it supports the pair it writes with, and that pair's version fits its column.
   */
  lemma UndisturbedFirstStartInserts(
    deployment: Deployment, history: seq<Action>, r: nat, random: Bytes, nonce: nat)
    requires WellConfigured(deployment) && r < |deployment.replicas| && |random| == ROOT_LENGTH
    requires Run(deployment, Initial(deployment), history).row.None?
    ensures var before, replica := Run(deployment, Initial(deployment), history), deployment.replicas[r];
            var end := Run(deployment, before, FirstStart(r, random, nonce));
            && r < |end.phases|
            && (end.phases[r] == Started(random) <==>
                replica.writePair in replica.supported && replica.writePair.formatVersion < I32_BOUND)
            && (if end.phases[r] == Started(random) then
                  end.row.Some? && end.inserted == [end.row.value] && Holds(deployment, end.row.value, random)
                else end.row == None && end.phases[r].Failed?)
  {
    RunKeepsAgreement(deployment, Initial(deployment), history);
    var before := Run(deployment, Initial(deployment), history);
    var begin, finish := [Restart(r), Check(r), Read(r), Generate(r, random)], [Seal(r, nonce), Insert(r, true)];
    RunsCompose(deployment, before, begin, finish);
    RunKeepsAgreement(deployment, before, begin);
    FourSteps(deployment, before, Restart(r), Check(r), Read(r), Generate(r, random));
    var generated := Run(deployment, before, begin);
    assert generated == before.(phases := before.phases[r := Generated(random)]);
    GeneratedRootIsInserted(deployment, generated, r, random, nonce);
  }

  // ---- A deployment that meets the assumptions, and a run of it that serves -------------------------------

  const TRANSPARENT: Custody := Custody(
    (context, plaintext, nonce) => if |plaintext| == ROOT_LENGTH then plaintext else [0],
    (context, envelope) => if |envelope| == ROOT_LENGTH then Some(envelope) else None)

  const PAIR: CustodyPair := CustodyPair(['p' as int], 1)

  const TWO_REPLICAS: Deployment :=
    Deployment(['i' as int], [Replica(PAIR, {PAIR}), Replica(PAIR, {PAIR})], TRANSPARENT)

  lemma TwoReplicasAreWellConfigured()
    ensures WellConfigured(TWO_REPLICAS)
  {
  }

  function RootRow(root: Bytes): Row {
    Row(PAIR.providerId, 1, 1, root)
  }

  lemma BothFindNothing()
    ensures Run(TWO_REPLICAS, Initial(TWO_REPLICAS), [Check(0), Check(1), Read(0), Read(1)])
         == State(None, [], [FoundNothing, FoundNothing], [])
  {
    var start := Initial(TWO_REPLICAS);
    FourSteps(TWO_REPLICAS, start, Check(0), Check(1), Read(0), Read(1));
    assert start.phases == [Idle, Idle];
  }

  lemma BothSeal(mine: Bytes, theirs: Bytes)
    requires |mine| == ROOT_LENGTH && |theirs| == ROOT_LENGTH
    ensures Run(TWO_REPLICAS, State(None, [], [FoundNothing, FoundNothing], []),
                [Generate(0, mine), Generate(1, theirs), Seal(0, 0), Seal(1, 0)])
         == State(None, [], [Sealed(mine, RootRow(mine)), Sealed(theirs, RootRow(theirs))], [])
  {
    var empty := State(None, [], [FoundNothing, FoundNothing], []);
    FourSteps(TWO_REPLICAS, empty, Generate(0, mine), Generate(1, theirs), Seal(0, 0), Seal(1, 0));
    var generated := Apply(TWO_REPLICAS, Apply(TWO_REPLICAS, empty, Generate(0, mine)), Generate(1, theirs));
    assert generated == State(None, [], [Generated(mine), Generated(theirs)], []);
  }

  lemma SecondWinsTheRace(mine: Bytes, theirs: Bytes)
    requires |mine| == ROOT_LENGTH && |theirs| == ROOT_LENGTH
    ensures Run(TWO_REPLICAS, State(None, [], [Sealed(mine, RootRow(mine)), Sealed(theirs, RootRow(theirs))], []),
                [Insert(1, true), Insert(0, true), Reread(0), Open(0)])
         == State(Some(RootRow(theirs)), [RootRow(theirs)], [Started(theirs), Started(theirs)], [theirs, theirs])
  {
    var row := RootRow(theirs);
    var sealed := State(None, [], [Sealed(mine, RootRow(mine)), Sealed(theirs, row)], []);
    FourSteps(TWO_REPLICAS, sealed, Insert(1, true), Insert(0, true), Reread(0), Open(0));
    var inserted := Apply(TWO_REPLICAS, sealed, Insert(1, true));
    assert inserted == State(Some(row), [row], [Sealed(mine, RootRow(mine)), Started(theirs)], [theirs]);
    var reread := Apply(TWO_REPLICAS, Apply(TWO_REPLICAS, inserted, Insert(0, true)), Reread(0));
    assert reread == State(Some(row), [row], [Opening(row), Started(theirs)], [theirs]);
    assert OpenRow(TWO_REPLICAS, TWO_REPLICAS.replicas[0], row) == Ok(theirs);
  }

  lemma ThreeRounds(
    deployment: Deployment, start: State, a: seq<Action>, b: seq<Action>, c: seq<Action>, x: State, y: State, z: State)
    requires Run(deployment, start, a) == x && Run(deployment, x, b) == y && Run(deployment, y, c) == z
    ensures Run(deployment, start, a + b + c) == z
  {
    RunsCompose(deployment, start, a, b);
    RunsCompose(deployment, start, a + b, c);
  }

  /** Two replicas race: both read an empty table, the second inserts first, and both serve its root. */
  lemma TwoReplicasServeOneRoot(mine: Bytes, theirs: Bytes) returns (actions: seq<Action>)
    requires |mine| == ROOT_LENGTH && |theirs| == ROOT_LENGTH
    ensures WellConfigured(TWO_REPLICAS)
    ensures Run(TWO_REPLICAS, Initial(TWO_REPLICAS), actions)
         == State(Some(RootRow(theirs)), [RootRow(theirs)], [Started(theirs), Started(theirs)], [theirs, theirs])
  {
    TwoReplicasAreWellConfigured();
    BothFindNothing();
    BothSeal(mine, theirs);
    SecondWinsTheRace(mine, theirs);
    var both := [Check(0), Check(1), Read(0), Read(1)];
    var made := [Generate(0, mine), Generate(1, theirs), Seal(0, 0), Seal(1, 0)];
    var raced := [Insert(1, true), Insert(0, true), Reread(0), Open(0)];
    actions := both + made + raced;
    ThreeRounds(TWO_REPLICAS, Initial(TWO_REPLICAS), both, made, raced,
                State(None, [], [FoundNothing, FoundNothing], []),
                State(None, [], [Sealed(mine, RootRow(mine)), Sealed(theirs, RootRow(theirs))], []),
                State(Some(RootRow(theirs)), [RootRow(theirs)], [Started(theirs), Started(theirs)], [theirs, theirs]));
  }

  // ---- The procedure one replica runs ------------------------------------------------------------------

  class SecretTable {
    var row: Option<Row>

    constructor ()
      ensures row == None
    {
      row := None;
    }

    method InsertIfAbsent(candidate: Row) returns (inserted: nat)
      modifies this
      ensures inserted == (if old(row).None? then 1 else 0)
      ensures row == if old(row).None? then Some(candidate) else old(row)
    {
      if row.Some? {
        return 0;
      }
      row := Some(candidate);
      return 1;
    }

    /** The whole procedure of one replica, with a rival that may insert a row before its own insertion. */
    method LoadOrInitialize(
      deployment: Deployment, replica: Replica, random: Bytes, nonce: nat, rival: Option<Row>
    ) returns (result: Result<Bytes, StartupError>)
      requires OpenInvertsSeal(deployment.custody) && ValidPair(replica.writePair) && |random| == ROOT_LENGTH
      modifies this
      ensures old(row).Some? ==> row == old(row) && result == OpenRow(deployment, replica, row.value)
      ensures old(row).None? ==>
                var sealed := SealRow(deployment, replica, random, nonce);
                if sealed.Err? then row == None && result == Err(sealed.error)
                else if rival.Some? then row == rival && result == OpenRow(deployment, replica, rival.value)
                else row == Some(sealed.value) && result == Ok(random) && Holds(deployment, row.value, random)
    {
      if row.Some? {
        return OpenRow(deployment, replica, row.value);
      }
      var sealed := SealRow(deployment, replica, random, nonce);
      if sealed.Err? {
        return Err(sealed.error);
      }
      SealedRowHolds(deployment, replica, random, nonce);
      if rival.Some? {
        var _ := InsertIfAbsent(rival.value);
      }
      var inserted := InsertIfAbsent(sealed.value);
      if inserted == 1 {
        return Ok(random);
      }
      result := OpenRow(deployment, replica, row.value);
    }
  }
}
