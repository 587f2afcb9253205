/** The bounded retry loop of the management client, against a server that replays completed idempotency keys. */
module Client {
  import opened Wrappers

  datatype Json = Null | Text(text: string) | Object(fields: map<string, Json>) | Other

  datatype Mode = Query | Command

  datatype Operation = Operation(
    id: string,
    httpMethod: string,
    pathParameters: seq<string>,
    mode: Mode,
    etagPrecondition: bool,
    clientGeneratedKey: bool,
    oneTimeSecret: bool,
    oneTimeField: Option<string>)

  datatype Invocation = Invocation(
    pathArguments: map<string, string>,
    query: map<string, string>,
    body: Option<Json>,
    etag: Option<string>,
    idempotencyKey: Option<string>)

  /** Everything that goes over the wire and is the client's choice. */
  datatype Request = Request(operation: Operation, invocation: Invocation)

  /** A response with the parts the client looks at; no body stands for an empty one. */
  datatype Response = Response(status: nat, committed: bool, body: Option<Json>)

  datatype ClientError =
    | MissingEtag
    | MissingPathArgument(name: string)
    | UnsupportedMethod
    | QueryTransport
    | CommandOutcomeUnknown(committed: bool)
    | ResponseTooLarge
    | ReadResponse
    | InvalidSuccessResponse
    | Api(status: nat)

  // ---- Reading one response --------------------------------------------------------------------------

  /** What may befall the body of a delivered response. */
  datatype Delivery = Intact | TooLong | ReadFails | Garbled

  predicate IsSuccess(status: nat) {
    200 <= status < 300
  }

  function UnavailableError(operation: Operation, response: Response, fallback: ClientError): ClientError {
    if !IsSuccess(response.status) || operation.mode != Command then fallback
    else CommandOutcomeUnknown(response.committed)
  }

  /** The one-time material the operation promises is there and not empty. */
  predicate HasMaterial(operation: Operation, body: Json) {
    && operation.oneTimeField.Some? && body.Object? && operation.oneTimeField.value in body.fields
    && var value := body.fields[operation.oneTimeField.value]; value.Text? && value.text != ""
  }

  function ParseSuccessBody(operation: Operation, response: Response, delivery: Delivery): Result<Json, ClientError> {
    var unavailable := Err(UnavailableError(operation, response, InvalidSuccessResponse));
    if response.body.Some? && delivery == Garbled then unavailable
    else
      var body := if response.body.None? then Null else response.body.value;
      if operation.oneTimeSecret && !HasMaterial(operation, body) then unavailable else Ok(body)
  }

  function ParseResponse(operation: Operation, response: Response, delivery: Delivery): Result<Json, ClientError> {
    match delivery
    case TooLong => Err(UnavailableError(operation, response, ResponseTooLarge))
    case ReadFails => Err(UnavailableError(operation, response, ReadResponse))
    case _ =>
      if !IsSuccess(response.status) then Err(Api(response.status))
      else ParseSuccessBody(operation, response, delivery)
  }

  predicate Retryable(error: ClientError) {
    match error
    case CommandOutcomeUnknown(_) => true
    case Api(status) => status in {408, 425, 429, 500, 502, 503, 504}
    case _ => false
  }

  /** A response of success to a command never reads as a definite failure. */
  lemma SuccessIsNeverADefiniteFailure(operation: Operation, response: Response, delivery: Delivery)
    requires operation.mode == Command && IsSuccess(response.status)
    ensures var result := ParseResponse(operation, response, delivery);
            result.Ok? || result.error == CommandOutcomeUnknown(response.committed)
  {
  }

  // ---- The server ------------------------------------------------------------------------------------

  /** What the server makes of a request that reaches it: a refusal without effect, or an execution. */
  datatype Mood = Refuses(status: nat) | Executes(response: Response)

  predicate PossibleMood(mood: Mood) {
    if mood.Refuses? then !IsSuccess(mood.status) else IsSuccess(mood.response.status)
  }

  /** Every completed key was completed by a successful execution. */
  predicate KeysWereExecuted(completed: map<string, Response>, executed: seq<Request>) {
    forall key | key in completed ::
      IsSuccess(completed[key].status)
      && exists i :: 0 <= i < |executed| && executed[i].invocation.idempotencyKey == Some(key)
  }

  /** The completed keys with their responses, what was received and what was executed. */
  datatype Server = Server(completed: map<string, Response>, received: seq<Request>, executed: seq<Request>)

  predicate Completed(server: Server, invocation: Invocation) {
    invocation.idempotencyKey.Some? && invocation.idempotencyKey.value in server.completed
  }

  /** The server after a request, and its answer: a completed key gets its stored response again. */
  function Handled(server: Server, request: Request, mood: Mood): (Server, Response) {
    var key := request.invocation.idempotencyKey;
    var received := server.(received := server.received + [request]);
    if mood.Refuses? then (received, Response(mood.status, false, None))
    else if Completed(server, request.invocation) then (received, server.completed[key.value])
    else
      (received.(executed := server.executed + [request],
                 completed := if key.Some? then server.completed[key.value := mood.response] else server.completed),
       mood.response)
  }

  class ReplayingServer {
    var completed: map<string, Response>
    var received: seq<Request>
    var executed: seq<Request>

    constructor ()
      ensures View() == Server(map[], [], [])
    {
      completed, received, executed := map[], [], [];
    }

    function View(): Server
      reads this
    {
      Server(completed, received, executed)
    }

    predicate Valid()
      reads this
    {
      KeysWereExecuted(completed, executed)
    }

    /** Executes a request at most once per key. */
    method Handle(request: Request, mood: Mood) returns (response: Response)
      requires Valid()
      requires PossibleMood(mood)
      modifies this
      ensures Valid()
      ensures (View(), response) == Handled(old(View()), request, mood)
      ensures received == old(received) + [request]
      ensures mood.Refuses? ==> response.status == mood.status
      ensures executed == old(executed) || executed == old(executed) + [request]
      ensures executed != old(executed) <==> mood.Executes? && !Completed(old(View()), request.invocation)
    {
      received := received + [request];
      if mood.Refuses? {
        return Response(mood.status, false, None);
      }
      var key := request.invocation.idempotencyKey;
      if key.Some? && key.value in completed {
        return completed[key.value];
      }
      ghost var before := executed;
      executed := executed + [request];
      assert executed[|before|] == request && forall i :: 0 <= i < |before| ==> executed[i] == before[i];
      if key.Some? {
        completed := completed[key.value := mood.response];
      }
      return mood.response;
    }
  }

  // ---- The loop --------------------------------------------------------------------------------------

  /** What the network does with one attempt; an intermediary may put a failure of its own in place of the response. */
  datatype Exchange =
    | RequestLost
    | ResponseLost(mood: Mood)
    | Intercepted(mood: Mood, status: nat)
    | Delivered(mood: Mood, delivery: Delivery)

  predicate Possible(exchange: Exchange) {
    match exchange
    case RequestLost => true
    case ResponseLost(mood) => PossibleMood(mood)
    case Intercepted(mood, status) => PossibleMood(mood) && !IsSuccess(status)
    case Delivered(mood, _) => PossibleMood(mood)
  }

  /** The server's own refusal arrived. */
  predicate Refused(exchange: Exchange) {
    exchange.Delivered? && exchange.mood.Refuses?
  }

  /** Some failure arrived as the answer, from the server or from an intermediary. */
  predicate AnsweredByFailure(exchange: Exchange) {
    Refused(exchange) || exchange.Intercepted?
  }

  predicate IsDefiniteFailure(result: Result<Json, ClientError>) {
    result.Err? && !result.error.CommandOutcomeUnknown?
  }

  function FirstMissing(parameters: seq<string>, arguments: map<string, string>): (missing: Option<string>)
    ensures missing.None? <==> forall name :: name in parameters ==> name in arguments
    ensures missing.Some? ==>
              exists k :: && 0 <= k < |parameters| && parameters[k] == missing.value && missing.value !in arguments
                          && forall i :: 0 <= i < k ==> parameters[i] in arguments
  {
    if parameters == [] then None
    else if parameters[0] !in arguments then Some(parameters[0])
    else FirstMissing(parameters[1..], arguments)
  }

  predicate RetrySafe(operation: Operation, invocation: Invocation) {
    operation.clientGeneratedKey && invocation.idempotencyKey.Some?
  }

  function TransportError(operation: Operation): ClientError {
    if operation.mode == Command then CommandOutcomeUnknown(false) else QueryTransport
  }

  /** Why an invocation is refused before anything is sent. */
  function Precheck(operation: Operation, invocation: Invocation): Option<ClientError> {
    if operation.etagPrecondition && invocation.etag.None? then Some(MissingEtag)
    else
      var missing := FirstMissing(operation.pathParameters, invocation.pathArguments);
      if missing.Some? then Some(MissingPathArgument(missing.value))
      else if operation.httpMethod != "GET" && operation.httpMethod != "POST" then Some(UnsupportedMethod)
      else None
  }

  /** It has the etag it needs, every path parameter and a method that the client speaks. */
  predicate MayBeSent(operation: Operation, invocation: Invocation) {
    && (operation.etagPrecondition ==> invocation.etag.Some?)
    && (forall name :: name in operation.pathParameters ==> name in invocation.pathArguments)
    && (operation.httpMethod == "GET" || operation.httpMethod == "POST")
  }

  /** The server's side of one exchange. */
  function Reached(server: Server, request: Request, exchange: Exchange): Server {
    if exchange.RequestLost? then server else Handled(server, request, exchange.mood).0
  }

  /** What the client makes of it. */
  function Answer(server: Server, request: Request, exchange: Exchange): Result<Json, ClientError> {
    match exchange
    case RequestLost | ResponseLost(_) => Err(TransportError(request.operation))
    case Intercepted(_, status) => Err(Api(status))
    case Delivered(mood, delivery) => ParseResponse(request.operation, Handled(server, request, mood).1, delivery)
  }

  /** The request arrived and the server was willing to execute it. */
  predicate Executing(exchange: Exchange) {
    !exchange.RequestLost? && exchange.mood.Executes?
  }

  /** What one attempt does to the server, and what its answer then means. */
  lemma AttemptLaws(server: Server, request: Request, exchange: Exchange)
    requires Possible(exchange) && KeysWereExecuted(server.completed, server.executed)
    ensures var after, answer := Reached(server, request, exchange), Answer(server, request, exchange);
            && (after.received == server.received || after.received == server.received + [request])
            && (after.executed == server.executed || after.executed == server.executed + [request])
            && (after.executed != server.executed <==> Executing(exchange) && !Completed(server, request.invocation))
            && (after.executed == server.executed ==> after.completed == server.completed)
            && (after.executed != server.executed && request.invocation.idempotencyKey.Some? ==>
                Completed(after, request.invocation))
            && (answer.Ok? ==>
                after.executed == server.executed + [request] || Completed(server, request.invocation))
            && (answer.Ok? && request.operation.oneTimeSecret ==> HasMaterial(request.operation, answer.value))
            && (request.operation.mode == Command ==> (IsDefiniteFailure(answer) <==> AnsweredByFailure(exchange)))
            && KeysWereExecuted(after.completed, after.executed)
  {
    var after := Reached(server, request, exchange);
    forall key | key in after.completed
      ensures exists i :: 0 <= i < |after.executed| && after.executed[i].invocation.idempotencyKey == Some(key)
    {
      if key in server.completed {
        var i :| 0 <= i < |server.executed| && server.executed[i].invocation.idempotencyKey == Some(key);
        assert after.executed[i] == server.executed[i];
      } else {
        assert after.executed[|server.executed|] == request;
      }
    }
  }

  /** One attempt; the exchange is the environment's choice. */
  method Attempt(server: ReplayingServer, request: Request, exchange: Exchange)
    returns (result: Result<Json, ClientError>)
    requires server.Valid() && Possible(exchange)
    modifies server
    ensures server.Valid()
    ensures server.View() == Reached(old(server.View()), request, exchange)
    ensures result == Answer(old(server.View()), request, exchange)
  {
    var operation := request.operation;
    match exchange {
      case RequestLost =>
        return Err(TransportError(operation));
      case ResponseLost(mood) =>
        var _ := server.Handle(request, mood);
        return Err(TransportError(operation));
      case Intercepted(mood, status) =>
        var _ := server.Handle(request, mood);
        return Err(Api(status));
      case Delivered(mood, delivery) =>
        var response := server.Handle(request, mood);
        return ParseResponse(operation, response, delivery);
    }
  }

  // ---- A whole invocation ------------------------------------------------------------------------------

  /** How an invocation ends: the server, the result, and how many exchanges it took. */
  datatype Outcome = Outcome(server: Server, result: Result<Json, ClientError>, attempts: nat)

  function MaxAttempts(operation: Operation, invocation: Invocation): nat {
    if RetrySafe(operation, invocation) then 2 else 1
  }

  function Attempts(server: Server, request: Request, script: seq<Exchange>, left: nat): Outcome
    requires 1 <= left <= |script|
    decreases left
  {
    var next, result := Reached(server, request, script[0]), Answer(server, request, script[0]);
    if result.Ok? || left == 1 || !Retryable(result.error) then Outcome(next, result, 1)
    else
      var rest := Attempts(next, request, script[1..], left - 1);
      rest.(attempts := 1 + rest.attempts)
  }

  /** The network's choices are a script: what it would do with a first and with a second attempt. */
  ghost predicate IsScript(script: seq<Exchange>) {
    |script| == 2 && forall i :: 0 <= i < 2 ==> Possible(script[i])
  }

  function Invoked(server: Server, operation: Operation, invocation: Invocation, script: seq<Exchange>): Outcome
    requires |script| == 2
  {
    if Precheck(operation, invocation).Some? then
      Outcome(server, Err(Precheck(operation, invocation).value), 0)
    else
      Attempts(server, Request(operation, invocation), script, MaxAttempts(operation, invocation))
  }

  lemma OneAttempt(server: Server, request: Request, script: seq<Exchange>)
    requires IsScript(script)
    ensures Attempts(server, request, script, 1)
         == Outcome(Reached(server, request, script[0]), Answer(server, request, script[0]), 1)
  {
  }

  lemma TwoAttempts(server: Server, request: Request, script: seq<Exchange>)
    requires IsScript(script)
    ensures Attempts(server, request, script, 2)
         == (var next, result := Reached(server, request, script[0]), Answer(server, request, script[0]);
             if result.Ok? || !Retryable(result.error) then Outcome(next, result, 1)
             else Outcome(Reached(next, request, script[1]), Answer(next, request, script[1]), 2))
  {
    assert script[1..][0] == script[1];
  }

  /** What the exchanges that sending a request took have to do with its effect. */
  ghost predicate HasLawfulEffect(server: Server, request: Request, script: seq<Exchange>, end: Outcome)
    requires 1 <= end.attempts <= |script|
  {
    && server.received <= end.server.received
    && |end.server.received| <= |server.received| + end.attempts
    && (forall i :: |server.received| <= i < |end.server.received| ==> end.server.received[i] == request)
    && (end.server.executed == server.executed || end.server.executed == server.executed + [request])
    && (end.server.executed != server.executed <==>
        (exists i :: 0 <= i < end.attempts && Executing(script[i])) && !Completed(server, request.invocation))
  }

  /** And with its result. */
  ghost predicate HasLawfulResult(server: Server, request: Request, script: seq<Exchange>, end: Outcome)
    requires 1 <= end.attempts <= |script|
  {
    && (end.result.Ok? ==>
        end.server.executed == server.executed + [request] || Completed(server, request.invocation))
    && (end.result.Ok? && request.operation.oneTimeSecret ==> HasMaterial(request.operation, end.result.value))
    && (request.operation.mode == Command ==>
        (IsDefiniteFailure(end.result) <==> AnsweredByFailure(script[end.attempts - 1])))
    && (Refused(script[end.attempts - 1]) && end.server.executed != server.executed ==>
        end.attempts == 2 && !Refused(script[0]))
  }

  ghost predicate IsLawful(server: Server, request: Request, script: seq<Exchange>, end: Outcome)
    requires 1 <= end.attempts <= |script|
  {
    HasLawfulEffect(server, request, script, end) && HasLawfulResult(server, request, script, end)
  }

  lemma OneAttemptIsLawful(server: Server, request: Request, script: seq<Exchange>)
    requires IsScript(script) && KeysWereExecuted(server.completed, server.executed)
    ensures IsLawful(server, request, script,
                     Outcome(Reached(server, request, script[0]), Answer(server, request, script[0]), 1))
  {
    AttemptLaws(server, request, script[0]);
  }

  function SecondOutcome(server: Server, request: Request, script: seq<Exchange>): Outcome
    requires |script| == 2
  {
    var next := Reached(server, request, script[0]);
    Outcome(Reached(next, request, script[1]), Answer(next, request, script[1]), 2)
  }

  /** A second attempt is made under a key, so it cannot take effect if the first one did. */
  lemma TwoAttemptsHaveLawfulEffect(server: Server, request: Request, script: seq<Exchange>)
    requires IsScript(script) && KeysWereExecuted(server.completed, server.executed)
    requires request.invocation.idempotencyKey.Some?
    ensures HasLawfulEffect(server, request, script, SecondOutcome(server, request, script))
  {
    var next := Reached(server, request, script[0]);
    AttemptLaws(server, request, script[0]);
    AttemptLaws(next, request, script[1]);
    assert Completed(next, request.invocation) <==>
      Completed(server, request.invocation) || next.executed != server.executed;
  }

  lemma TwoAttemptsHaveLawfulResult(server: Server, request: Request, script: seq<Exchange>)
    requires IsScript(script) && KeysWereExecuted(server.completed, server.executed)
    requires request.invocation.idempotencyKey.Some?
    ensures HasLawfulResult(server, request, script, SecondOutcome(server, request, script))
  {
    var next := Reached(server, request, script[0]);
    AttemptLaws(server, request, script[0]);
    AttemptLaws(next, request, script[1]);
  }

  lemma TwoAttemptsAreLawful(server: Server, request: Request, script: seq<Exchange>)
    requires IsScript(script) && KeysWereExecuted(server.completed, server.executed)
    requires request.invocation.idempotencyKey.Some?
    ensures IsLawful(server, request, script, SecondOutcome(server, request, script))
  {
    TwoAttemptsHaveLawfulEffect(server, request, script);
    TwoAttemptsHaveLawfulResult(server, request, script);
  }

  lemma InvokedLaws(server: Server, operation: Operation, invocation: Invocation, script: seq<Exchange>)
    requires IsScript(script) && Precheck(operation, invocation).None?
    requires KeysWereExecuted(server.completed, server.executed)
    ensures var end := Invoked(server, operation, invocation, script);
            && 1 <= end.attempts <= MaxAttempts(operation, invocation)
            && IsLawful(server, Request(operation, invocation), script, end)
  {
    var request := Request(operation, invocation);
    OneAttempt(server, request, script);
    TwoAttempts(server, request, script);
    OneAttemptIsLawful(server, request, script);
    if RetrySafe(operation, invocation) {
      TwoAttemptsAreLawful(server, request, script);
    }
  }

  /** The loop itself: up to so many attempts, another one only after a failure worth retrying. */
  method Send(server: ReplayingServer, request: Request, script: seq<Exchange>, maxAttempts: nat)
    returns (result: Result<Json, ClientError>, exchanges: seq<Exchange>)
    requires server.Valid() && IsScript(script) && 1 <= maxAttempts <= 2
    modifies server
    ensures server.Valid() && exchanges <= script
    ensures Outcome(server.View(), result, |exchanges|) == Attempts(old(server.View()), request, script, maxAttempts)
  {
    exchanges := [];
    result := Err(QueryTransport);
    while |exchanges| < maxAttempts
      invariant |exchanges| < maxAttempts && exchanges == script[..|exchanges|]
      invariant server.Valid()
      invariant var rest := Attempts(server.View(), request, script[|exchanges|..], maxAttempts - |exchanges|);
                Attempts(old(server.View()), request, script, maxAttempts)
                == rest.(attempts := |exchanges| + rest.attempts)
      decreases maxAttempts - |exchanges|
    {
      var exchange := script[|exchanges|];
      assert script[|exchanges|..][1..] == script[|exchanges| + 1..];
      result := Attempt(server, request, exchange);
      exchanges := exchanges + [exchange];
      if result.Ok? || |exchanges| == maxAttempts || !Retryable(result.error) {
        return;
      }
    }
  }

  /**
   * Whatever the network loses and the server refuses: at most two identical requests leave, one
   * without an eligible key; the command takes effect at most once, and exactly when some attempt finds
   * the server willing and the key is not completed yet; success means that it took effect, now or
   * under the same key before; and one-time material is never silently missing. A command is reported
   * as definitely failed exactly when a failure arrived as the last answer.
   */
  method Invoke(server: ReplayingServer, operation: Operation, invocation: Invocation, script: seq<Exchange>)
    returns (result: Result<Json, ClientError>, exchanges: seq<Exchange>)
    requires server.Valid() && IsScript(script)
    modifies server
    ensures server.Valid() && exchanges <= script
    ensures Outcome(server.View(), result, |exchanges|) == Invoked(old(server.View()), operation, invocation, script)
    ensures |exchanges| <= if operation.clientGeneratedKey && invocation.idempotencyKey.Some? then 2 else 1
    ensures exchanges == [] ==> server.View() == old(server.View())
    ensures operation.etagPrecondition && invocation.etag.None? ==> exchanges == [] && result == Err(MissingEtag)
    ensures forall k |
              && !(operation.etagPrecondition && invocation.etag.None?)
              && 0 <= k < |operation.pathParameters| && operation.pathParameters[k] !in invocation.pathArguments
              && forall i :: 0 <= i < k ==> operation.pathParameters[i] in invocation.pathArguments ::
              exchanges == [] && result == Err(MissingPathArgument(operation.pathParameters[k]))
    ensures && !(operation.etagPrecondition && invocation.etag.None?)
            && (forall name :: name in operation.pathParameters ==> name in invocation.pathArguments)
            && operation.httpMethod != "GET" && operation.httpMethod != "POST"
            ==> exchanges == [] && result == Err(UnsupportedMethod)
    ensures exchanges != [] <==> MayBeSent(operation, invocation)
    ensures old(server.received) <= server.received && |server.received| <= |old(server.received)| + |exchanges|
    ensures forall i :: |old(server.received)| <= i < |server.received| ==>
              server.received[i] == Request(operation, invocation)
    ensures server.executed == old(server.executed)
         || server.executed == old(server.executed) + [Request(operation, invocation)]
    ensures server.executed != old(server.executed) <==>
            && (exists i :: 0 <= i < |exchanges| && Executing(exchanges[i]))
            && !Completed(old(server.View()), invocation)
    ensures result.Ok? ==>
              || server.executed == old(server.executed) + [Request(operation, invocation)]
              || Completed(old(server.View()), invocation)
    ensures result.Ok? && operation.oneTimeSecret ==>
              && operation.oneTimeField.Some? && result.value.Object?
              && operation.oneTimeField.value in result.value.fields
              && result.value.fields[operation.oneTimeField.value].Text?
              && result.value.fields[operation.oneTimeField.value].text != ""
    ensures operation.mode == Command && exchanges != [] ==>
              (IsDefiniteFailure(result) <==> AnsweredByFailure(exchanges[|exchanges| - 1]))
    ensures exchanges != [] && Refused(exchanges[|exchanges| - 1]) && server.executed != old(server.executed) ==>
              |exchanges| == 2 && !Refused(exchanges[0])
  {
    var refused := Precheck(operation, invocation);
    if refused.Some? {
      return Err(refused.value), [];
    }
    InvokedLaws(server.View(), operation, invocation, script);
    result, exchanges := Send(server, Request(operation, invocation), script, MaxAttempts(operation, invocation));
  }

  // ---- What a reported failure does not say --------------------------------------------------------------

  /** With some choices of the network the server's own refusal is the last answer, and the command took effect. */
  ghost predicate RefusalMayHideEffect(server: Server, operation: Operation, invocation: Invocation) {
    exists script ::
      && IsScript(script)
      && var end := Invoked(server, operation, invocation, script);
         && end.attempts > 0 && Refused(script[end.attempts - 1])
         && IsDefiniteFailure(end.result) && end.server.executed != server.executed
  }

  /** With some choices of the network any failure is reported as definite, and the command took effect. */
  ghost predicate FailureMayHideEffect(server: Server, operation: Operation, invocation: Invocation) {
    exists script ::
      && IsScript(script)
      && var end := Invoked(server, operation, invocation, script);
         IsDefiniteFailure(end.result) && end.server.executed != server.executed
  }

  /** An effect needs a request that passed the checks and a key that was not completed before. */
  lemma EffectNeedsNewKey(server: Server, operation: Operation, invocation: Invocation, script: seq<Exchange>)
    requires IsScript(script)
    requires Invoked(server, operation, invocation, script).server.executed != server.executed
    ensures Precheck(operation, invocation).None? && !Completed(server, invocation)
    ensures var end := Invoked(server, operation, invocation, script);
            end.attempts > 0 && (Refused(script[end.attempts - 1]) ==> RetrySafe(operation, invocation))
  {
    var request := Request(operation, invocation);
    OneAttempt(server, request, script);
    TwoAttempts(server, request, script);
  }

  /**
   * The server's own refusal can be the last answer to a command that took effect exactly when the
   * invocation passes the checks, may be retried, and its key is not completed yet.
   */
  lemma RefusalMayHideEffectExactlyWhen(server: Server, operation: Operation, invocation: Invocation)
    ensures RefusalMayHideEffect(server, operation, invocation) <==>
            && Precheck(operation, invocation).None? && RetrySafe(operation, invocation)
            && !Completed(server, invocation)
  {
    if RefusalMayHideEffect(server, operation, invocation) {
      var script :| && IsScript(script)
                    && var end := Invoked(server, operation, invocation, script);
                       && end.attempts > 0 && Refused(script[end.attempts - 1])
                       && IsDefiniteFailure(end.result) && end.server.executed != server.executed;
      EffectNeedsNewKey(server, operation, invocation, script);
    }
    if Precheck(operation, invocation).None? && RetrySafe(operation, invocation) && !Completed(server, invocation) {
      var script := [Intercepted(Executes(Response(200, true, None)), 503), Delivered(Refuses(403), Intact)];
      TwoAttempts(server, Request(operation, invocation), script);
      assert Invoked(server, operation, invocation, script).result == Err(Api(403));
      assert |Invoked(server, operation, invocation, script).server.executed| == |server.executed| + 1;
    }
  }

  /** Any failure can hide the effect of a command, retried or not, exactly when it can have one at all. */
  lemma FailureMayHideEffectExactlyWhen(server: Server, operation: Operation, invocation: Invocation)
    ensures FailureMayHideEffect(server, operation, invocation) <==>
            Precheck(operation, invocation).None? && !Completed(server, invocation)
  {
    if FailureMayHideEffect(server, operation, invocation) {
      var script :| && IsScript(script)
                    && var end := Invoked(server, operation, invocation, script);
                       IsDefiniteFailure(end.result) && end.server.executed != server.executed;
      EffectNeedsNewKey(server, operation, invocation, script);
    }
    if Precheck(operation, invocation).None? && !Completed(server, invocation) {
      var refused := Intercepted(Executes(Response(200, true, None)), 400);
      var script := [refused, refused];
      OneAttempt(server, Request(operation, invocation), script);
      TwoAttempts(server, Request(operation, invocation), script);
      assert Invoked(server, operation, invocation, script).result == Err(Api(400));
      assert |Invoked(server, operation, invocation, script).server.executed| == |server.executed| + 1;
    }
  }

  /** A run of the client: the response to an executed command is lost, and the retry is refused for good. */
  method RetriedCommandMayHideItsEffect(server: ReplayingServer, operation: Operation, invocation: Invocation)
    returns (result: Result<Json, ClientError>, exchanges: seq<Exchange>)
    requires server.Valid() && operation.mode == Command
    requires Precheck(operation, invocation).None? && RetrySafe(operation, invocation)
    requires !Completed(server.View(), invocation)
    modifies server
    ensures |exchanges| == 2 && exchanges[0].ResponseLost? && Refused(exchanges[1])
    ensures result == Err(Api(403)) && server.executed == old(server.executed) + [Request(operation, invocation)]
  {
    var script := [ResponseLost(Executes(Response(200, true, None))), Delivered(Refuses(403), Intact)];
    TwoAttempts(server.View(), Request(operation, invocation), script);
    result, exchanges := Invoke(server, operation, invocation, script);
  }
}
