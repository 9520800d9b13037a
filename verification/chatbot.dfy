/**
  The GET /chatbot handler: validate the message, obtain a draft, have it
  evaluated, reject it or return it rewritten. Each outcome is a status code
  and a JSON body.
*/
module Chatbot {
  import opened Wrappers
  import opened Evaluation
  import opened Acceptance
  import opened Matching
  import opened Improvement

  /** `{error: ...}` or `{message: ...}` */
  datatype Body = ErrorBody(error: string) | MessageBody(message: string)

  datatype Reply = Reply(status: nat, body: Body)

  /** Why evaluateResponse threw: a non-ok HTTP status, a failed request, or a body that is not JSON. */
  datatype EvaluationError = ApiError(statusText: string) | NetworkError | InvalidJson

  const MissingUserMessage: string := "Missing user message"
  const QualityRejected: string := "Response did not meet quality standards"
  const InternalServerError: string := "Internal server error"

  /** The message query parameter is absent or the empty string (both are falsy). */
  predicate Missing(message: Option<string>)
    ensures message == Some("") ==> Missing(message)
    ensures !Missing(message) ==> message.Some? && |message.value| > 0
  {
    message.None? || message.value == ""
  }

  /**
    When the request reaches the rewrite, the verdict only holds literal terms
    (the condition under which the rewrite is modelled).
  */
  predicate LiteralVerdict(message: Option<string>, getResponse: string -> string,
                           evaluate: (string, string) -> Result<Verdict, EvaluationError>)
  {
    !Missing(message) ==>
      var outcome := evaluate(message.value, getResponse(message.value));
      outcome.Success? && IsResponseAcceptable(outcome.value) ==> LiteralRules(outcome.value.rules)
  }

  /**
    One request. `getResponse` stands for the response source and `evaluate`
    for evaluateResponse (the outcome of the call to the evaluation service);
    `random` gives the values Math.random returns during the rewrite.
  */
  function HandleChatbot(message: Option<string>, getResponse: string -> string,
                         evaluate: (string, string) -> Result<Verdict, EvaluationError>,
                         random: nat -> Fraction): (reply: Reply)
    requires LiteralVerdict(message, getResponse, evaluate)
    ensures Missing(message) ==> reply == Reply(400, ErrorBody(MissingUserMessage))
    ensures reply.status == 500 <==>
      !Missing(message) && evaluate(message.value, getResponse(message.value)).Failure?
    ensures reply.status == 200 <==>
      !Missing(message) &&
      var outcome := evaluate(message.value, getResponse(message.value));
      outcome.Success? && IsResponseAcceptable(outcome.value)
    ensures reply.status in {200, 400, 500}
    ensures reply.body.MessageBody? <==> reply.status == 200
    ensures reply.body.MessageBody? ==>
      var draft := getResponse(message.value);
      var verdict := evaluate(message.value, draft).value;
      reply.body.message == Improve(verdict.rules, Rewritten(draft, 0), random).text
    ensures reply.body.ErrorBody? ==>
      reply.body.error in {MissingUserMessage, QualityRejected, InternalServerError}
  {
    if Missing(message) then Reply(400, ErrorBody(MissingUserMessage))
    else
      var userMessage := message.value;
      var serverMessage := getResponse(userMessage);
      match evaluate(userMessage, serverMessage)
      case Failure(_) => Reply(500, ErrorBody(InternalServerError))
      case Success(evaluation) =>
        if !IsResponseAcceptable(evaluation) then Reply(400, ErrorBody(QualityRejected))
        else Reply(200, MessageBody(Improve(evaluation.rules, Rewritten(serverMessage, 0), random).text))
  }

  /** A missing message is answered before any draft is produced or evaluated. */
  lemma MissingMessageReachesNoStage(message: Option<string>,
                                     getResponse: string -> string, getResponse': string -> string,
                                     evaluate: (string, string) -> Result<Verdict, EvaluationError>,
                                     evaluate': (string, string) -> Result<Verdict, EvaluationError>,
                                     random: nat -> Fraction, random': nat -> Fraction)
    requires Missing(message)
    ensures LiteralVerdict(message, getResponse, evaluate) && LiteralVerdict(message, getResponse', evaluate')
    ensures HandleChatbot(message, getResponse, evaluate, random)
         == HandleChatbot(message, getResponse', evaluate', random')
  {
  }

  /** A rejected draft is never returned: the reply is the fixed rejection whatever the draft was. */
  lemma RejectionHidesDraft(message: string, getResponse: string -> string,
                            evaluate: (string, string) -> Result<Verdict, EvaluationError>,
                            random: nat -> Fraction)
    requires message != ""
    requires evaluate(message, getResponse(message)).Success?
    requires !IsResponseAcceptable(evaluate(message, getResponse(message)).value)
    ensures LiteralVerdict(Some(message), getResponse, evaluate)
    ensures HandleChatbot(Some(message), getResponse, evaluate, random) == Reply(400, ErrorBody(QualityRejected))
  {
  }

  /** A failed evaluation is reported without its details. */
  lemma EvaluationFailureIsInternal(message: string, getResponse: string -> string,
                                    evaluate: (string, string) -> Result<Verdict, EvaluationError>,
                                    random: nat -> Fraction)
    requires message != ""
    requires evaluate(message, getResponse(message)).Failure?
    ensures LiteralVerdict(Some(message), getResponse, evaluate)
    ensures HandleChatbot(Some(message), getResponse, evaluate, random) == Reply(500, ErrorBody(InternalServerError))
  {
  }
}
