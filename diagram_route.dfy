/**
 * The decision the diagram route's POST handler makes: which status and
 * which JSON body it answers with, given the configured API key and what
 * the call to the model returned.  The call itself is not modelled; its
 * outcome is an input.
 */
module DiagramRoute {
  import opened JsText
  import opened Options
  import opened DiagramCleanup

  /** What the call to the model came back with. */
  datatype Upstream =
    | NotOk(status: int, errorMessage: Option<string>)  // `!response.ok`, with `data.error?.message`
    | Ok(text: string)                                   // `data.content[0].text`
    | Threw(message: string)                             // anything thrown inside the `try`, as its message

  /** `response.ok` is false exactly for statuses outside 200-299. */
  predicate WellFormed(u: Upstream) {
    u.NotOk? ==> !(200 <= u.status <= 299)
  }

  /** The JSON body of the route's answer. */
  datatype Body =
    | DiagramText(value: string)                     // `{ type: 'text', value }`
    | Failure(error: string, details: Option<string>)

  datatype Response = Response(status: int, body: Body)

  /** The answer, and whether the model was called to produce it. */
  datatype Exchange = Exchange(upstreamCalled: bool, response: Response)

  const ConfigurationError := "Configuration error - API key missing"
  const GenerationError := "Failed to generate diagram"
  const UnknownError := "Unknown error"

  /** `!apiKey` fails for an absent key and for the empty string. */
  predicate KeyConfigured(apiKey: Option<string>) {
    apiKey.Some? && apiKey.value != ""
  }

  /** `data.error?.message || 'Unknown error'` */
  function ErrorDetails(message: Option<string>): (d: string)
    ensures d != ""
    ensures message.Some? && message.value != "" ==> d == message.value
    ensures message.None? || message.value == "" ==> d == UnknownError
  {
    if message.Some? && message.value != "" then message.value else UnknownError
  }

  /**
   * What the call's outcome turns into, once the key was found: a diagram
   * exactly for a successful call, otherwise "Failed to generate diagram"
   * with details, under the upstream status or 500.
   */
  function Answer(u: Upstream): (r: Response)
    ensures r.body.DiagramText? <==> u.Ok?
    ensures u.Ok? ==> r.status == 200 && r.body.value == Cleanup(u.text)
    ensures !u.Ok? ==> r.body.error == GenerationError && r.body.details.Some?
    ensures u.NotOk? ==> r.status == u.status && r.body.details == Some(ErrorDetails(u.errorMessage))
    ensures u.Threw? ==> r.status == 500 && r.body.details == Some(u.message)
  {
    match u
    case NotOk(status, message) => Response(status, Failure(GenerationError, Some(ErrorDetails(message))))
    case Ok(text) => Response(200, DiagramText(Cleanup(text)))
    case Threw(message) => Response(500, Failure(GenerationError, Some(message)))
  }

  /** The POST handler: without a key it answers 500 and never calls the model. */
  function Post(apiKey: Option<string>, u: Upstream): (r: Exchange)
    ensures r.upstreamCalled <==> KeyConfigured(apiKey)
    ensures !KeyConfigured(apiKey) ==> r.response == Response(500, Failure(ConfigurationError, None))
    ensures KeyConfigured(apiKey) ==> r.response == Answer(u)
  {
    if !KeyConfigured(apiKey) then Exchange(false, Response(500, Failure(ConfigurationError, None)))
    else Exchange(true, Answer(u))
  }

  /**
   * The route answers with a 2xx status exactly when it has a diagram, and
   * then the diagram text starts with "flowchart" and holds no "```".
   */
  lemma SuccessMeansDiagram(apiKey: Option<string>, u: Upstream)
    requires WellFormed(u)
    ensures var r := Post(apiKey, u).response;
      (200 <= r.status <= 299 <==> r.body.DiagramText?) &&
      (r.body.DiagramText? <==> KeyConfigured(apiKey) && u.Ok?)
    ensures var r := Post(apiKey, u).response;
      r.body.DiagramText? ==> StartsWith(r.body.value, "flowchart") && NoFence(r.body.value)
  {
    if KeyConfigured(apiKey) && u.Ok? {
      CleanupHasNoFence(u.text);
    }
  }

  /**
   * Every failure carries details, except the configuration error, which is
   * also the only one given without calling the model.
   */
  lemma FailureDetails(apiKey: Option<string>, u: Upstream)
    ensures var x := Post(apiKey, u);
      x.response.body.Failure? ==> (x.response.body.details.None? <==> !x.upstreamCalled)
    ensures var x := Post(apiKey, u);
      x.response.body.Failure? && x.upstreamCalled ==>
        x.response.body.error == GenerationError &&
        x.response.body.details == Some(if u.NotOk? then ErrorDetails(u.errorMessage) else u.message)
  {
  }

  /**
   * The status: 500 for a missing key and for anything thrown, the
   * upstream's own status when it refused, 200 with a diagram.
   */
  lemma ResponseStatus(apiKey: Option<string>, u: Upstream)
    ensures !KeyConfigured(apiKey) ==> Post(apiKey, u).response.status == 500
    ensures KeyConfigured(apiKey) && u.NotOk? ==> Post(apiKey, u).response.status == u.status
    ensures KeyConfigured(apiKey) && u.Threw? ==> Post(apiKey, u).response.status == 500
    ensures KeyConfigured(apiKey) && u.Ok? ==>
      Post(apiKey, u).response == Response(200, DiagramText(Cleanup(u.text)))
  {
  }

  /** A rate-limited call is answered with the upstream's own status and message. */
  lemma RateLimitExample()
    ensures Post(Some("key"), NotOk(429, Some("Rate limited"))).response ==
      Response(429, Failure(GenerationError, Some("Rate limited")))
    ensures Post(Some("key"), NotOk(529, None)).response ==
      Response(529, Failure(GenerationError, Some(UnknownError)))
    ensures Post(Some(""), Ok("A-->B")) == Exchange(false, Response(500, Failure(ConfigurationError, None)))
  {
  }
}
