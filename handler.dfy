/** The decision the `/api/generate` handler makes (api/index.js:39-65 and
    server/index.js:39-65). The Gemini call and `JSON.parse` are outside the
    model: they arrive as parameters, and the decision records which prompt,
    if any, the model call receives. */
module Handler {
  import opened Wrappers
  import opened Request
  import opened Cleanup
  import opened ReplaceAll
  import opened JsTrim

  /** What the model call produces: the reply text, or an exception from
      `getGenerativeModel`, `generateContent` or `response.text()`. */
  datatype Reply = Text(text: string) | CallFailed

  /** The response sent back, over some parsed-JSON type `J`. */
  datatype Response<J> = Success(content: J) | BadRequest(error: string) | ServerError(error: string)
  {
    /** The HTTP status: `res.json` leaves the default 200. */
    function Status(): int
    {
      match this
      case Success(_) => 200
      case BadRequest(_) => 400
      case ServerError(_) => 500
    }
  }

  /** The response, and the prompt the model call receives, or would have
      received had `getGenerativeModel` not failed first (`None`: validation
      failed, so neither the prompt builder nor the model was reached). The
      response is the same on either failure path. */
  datatype Exchange<J> = Exchange(response: Response<J>, modelPrompt: Option<string>)

  const MissingFields: string := "Missing fields"
  const GenerationFailed: string := "Failed to generate content. Try again."

  /** Validate; on success build the prompt, call the model, clean the reply
      and parse it. Any failure after validation becomes the generic 500. */
  function Decide<J>(body: Body, build: Body -> string, generate: string -> Reply,
                     parse: string -> Option<J>): (x: Exchange<J>)
    ensures x.response.BadRequest?
            <==> !(Truthy(body.productName) && Truthy(body.description) && Truthy(body.platform))
    ensures x.response.BadRequest? ==> x.response.error == MissingFields && x.modelPrompt == None
    ensures !x.response.BadRequest? ==> x.modelPrompt == Some(build(body))
    ensures x.response.ServerError? ==> x.response.error == GenerationFailed
    ensures x.response.Success?
            <==> && HasRequiredFields(body)
                 && generate(build(body)).Text?
                 && parse(Clean(generate(build(body)).text)).Some?
    ensures x.response.Success? ==> parse(Clean(generate(build(body)).text)) == Some(x.response.content)
    ensures x.response.Status() == 200 <==> x.response.Success?
    ensures x.response.Status() == 400 <==> !HasRequiredFields(body)
    ensures x.response.Status() == 500 <==> x.response.ServerError?
  {
    if !HasRequiredFields(body) then
      Exchange(BadRequest(MissingFields), None)
    else
      var prompt := build(body);
      match generate(prompt)
      case CallFailed => Exchange(ServerError(GenerationFailed), Some(prompt))
      case Text(text) =>
        match parse(Clean(text))
        case None => Exchange(ServerError(GenerationFailed), Some(prompt))
        case Some(content) => Exchange(Success(content), Some(prompt))
  }

  /** A rejected request reaches neither the prompt builder nor the model:
      its outcome is the same whatever those would have done. */
  lemma RejectionIgnoresModel<J>(body: Body, build: Body -> string, build': Body -> string,
                                 generate: string -> Reply, generate': string -> Reply,
                                 parse: string -> Option<J>, parse': string -> Option<J>)
    requires !HasRequiredFields(body)
    ensures Decide(body, build, generate, parse) == Decide(body, build', generate', parse')
    ensures Decide(body, build, generate, parse) == Exchange(BadRequest(MissingFields), None)
  {
  }

  /** Whenever the handler reports success, the text it parsed was the
      model's reply with every fence marker gone and no white space at either
      end, and cleaning it again would not have changed it. */
  lemma SuccessParsedCleanText<J>(body: Body, build: Body -> string, generate: string -> Reply,
                                  parse: string -> Option<J>)
    requires Decide(body, build, generate, parse).response.Success?
    ensures generate(build(body)).Text?
    ensures var parsed := Clean(generate(build(body)).text);
      && Absent(parsed, Fence) && Absent(parsed, JsonFence) && Trimmed(parsed)
      && Clean(parsed) == parsed
      && parse(parsed) == Some(Decide(body, build, generate, parse).response.content)
  {
    var text := generate(build(body)).text;
    CleanIdempotent(text);
  }
}
