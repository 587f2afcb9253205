/** What the client makes of every response, when it tries again, and whose response a success returns. */
module ClientRules {
  import opened Wrappers
  import opened Client

  // ---- Reading a response --------------------------------------------------------------------------------

  /** The body is an object with a non-empty text in the field that the operation names. */
  predicate HoldsMaterial(operation: Operation, body: Option<Json>) {
    && operation.oneTimeField.Some? && body.Some? && body.value.Object?
    && operation.oneTimeField.value in body.value.fields
    && body.value.fields[operation.oneTimeField.value].Text?
    && |body.value.fields[operation.oneTimeField.value].text| > 0
  }

  /** The body arrived whole, as JSON or empty, with the one-time material that was promised. */
  predicate IsReadable(operation: Operation, response: Response, delivery: Delivery) {
    && (delivery == Intact || (delivery == Garbled && response.body.None?))
    && (operation.oneTimeSecret ==> HoldsMaterial(operation, response.body))
  }

  function BodyOf(response: Response): Json {
    match response.body case Some(body) => body case None => Null
  }

  /** For every response: when it reads as a success and as what, when as the server's failure, when as neither. */
  lemma ResponseReadsExactlyWhen(operation: Operation, response: Response, delivery: Delivery)
    ensures var result := ParseResponse(operation, response, delivery);
            var success := 200 <= response.status <= 299;
            && (result.Ok? <==> success && IsReadable(operation, response, delivery))
            && (result.Ok? ==> result.value == BodyOf(response))
            && (forall status :: result == Err(Api(status)) <==>
                  !success && status == response.status && (delivery == Intact || delivery == Garbled))
            && (forall committed :: result == Err(CommandOutcomeUnknown(committed)) <==>
                  && success && operation.mode == Command && committed == response.committed
                  && !IsReadable(operation, response, delivery))
            && (result == Err(ResponseTooLarge) <==>
                delivery == TooLong && !(success && operation.mode == Command))
            && (result == Err(ReadResponse) <==>
                delivery == ReadFails && !(success && operation.mode == Command))
  {
  }

  // ---- Trying again ----------------------------------------------------------------------------------------

  /** The response that an executing server gives: the stored one under a completed key. */
  function ResponseOf(server: Server, invocation: Invocation, response: Response): Response {
    if invocation.idempotencyKey.Some? && invocation.idempotencyKey.value in server.completed
    then server.completed[invocation.idempotencyKey.value] else response
  }

  /**
   * An exchange after which the outcome may still be found out: a command that was lost or answered
   * unreadably, or a failure with one of seven statuses.
   */
  predicate InvitesRetry(server: Server, operation: Operation, invocation: Invocation, exchange: Exchange) {
    match exchange
    case RequestLost => operation.mode == Command
    case ResponseLost(_) => operation.mode == Command
    case Intercepted(_, status) => status in {408, 425, 429, 500, 502, 503, 504}
    case Delivered(Refuses(status), delivery) =>
      (delivery == Intact || delivery == Garbled) && status in {408, 425, 429, 500, 502, 503, 504}
    case Delivered(Executes(response), delivery) =>
      operation.mode == Command && !IsReadable(operation, ResponseOf(server, invocation, response), delivery)
  }

  lemma AnswerReadsExactlyWhen(server: Server, request: Request, exchange: Exchange)
    requires Possible(exchange) && KeysWereExecuted(server.completed, server.executed)
    ensures var answer := Answer(server, request, exchange);
            && (answer.Ok? <==>
                && exchange.Delivered? && exchange.mood.Executes?
                && IsReadable(request.operation, ResponseOf(server, request.invocation, exchange.mood.response),
                              exchange.delivery))
            && (answer.Ok? ==>
                answer.value == BodyOf(ResponseOf(server, request.invocation, exchange.mood.response)))
            && (exchange.RequestLost? || exchange.ResponseLost? ==>
                answer == Err(if request.operation.mode == Command then CommandOutcomeUnknown(false)
                              else QueryTransport))
            && (exchange.Intercepted? ==> answer == Err(Api(exchange.status)))
            && (answer.Err? ==>
                (Retryable(answer.error) <==> InvitesRetry(server, request.operation, request.invocation, exchange)))
  {
    if exchange.Delivered? {
      var response := Handled(server, request, exchange.mood).1;
      ResponseReadsExactlyWhen(request.operation, response, exchange.delivery);
    }
  }

  /** How many attempts an invocation makes, exactly, for every behaviour of the network and the server. */
  lemma AttemptsAreMadeExactlyWhen(
    server: Server, operation: Operation, invocation: Invocation, script: seq<Exchange>)
    requires IsScript(script) && KeysWereExecuted(server.completed, server.executed)
    ensures Invoked(server, operation, invocation, script).attempts ==
            if !MayBeSent(operation, invocation) then 0
            else if && operation.clientGeneratedKey && invocation.idempotencyKey.Some?
                    && InvitesRetry(server, operation, invocation, script[0])
            then 2 else 1
  {
    var request := Request(operation, invocation);
    AnswerReadsExactlyWhen(server, request, script[0]);
    OneAttempt(server, request, script);
    TwoAttempts(server, request, script);
  }

  /** A success is the last answer, and it returns the response of the one execution, whenever that was. */
  lemma SuccessReturnsTheOneExecution(
    server: Server, operation: Operation, invocation: Invocation, script: seq<Exchange>)
    requires IsScript(script) && KeysWereExecuted(server.completed, server.executed)
    requires Invoked(server, operation, invocation, script).result.Ok?
    ensures var end := Invoked(server, operation, invocation, script);
            && 1 <= end.attempts <= 2
            && var last := script[end.attempts - 1];
               && last.Delivered? && last.mood.Executes?
               && var first := if Executing(script[0]) then script[0].mood.response else last.mood.response;
                  var response := ResponseOf(server, invocation, first);
                  IsReadable(operation, response, last.delivery) && end.result.value == BodyOf(response)
  {
    var request := Request(operation, invocation);
    OneAttempt(server, request, script);
    TwoAttempts(server, request, script);
    AttemptLaws(server, request, script[0]);
    AnswerReadsExactlyWhen(server, request, script[0]);
    AnswerReadsExactlyWhen(Reached(server, request, script[0]), request, script[1]);
  }
}
