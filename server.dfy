/** server/index.js: the local-development copy of the endpoint. Of its two
    registrations of `/api/generate` only the first (lines 39-65) ever
    answers, because it sends a response on every path. */
module Server {
  import opened Wrappers
  import opened Request
  import opened Template
  import opened Handler

  /** `generatePrompt` (server/index.js:13-37): as in the api copy, except
      that the tech stack is interpolated as it is, so a missing one reads
      "undefined" and an empty one leaves the line empty. */
  function GeneratePrompt(b: Body): (r: string)
    ensures Contains(r, Line("Product", Interpolate(b.productName)))
    ensures Contains(r, Line("Description", Interpolate(b.description)))
    ensures Contains(r, Line("Tech Stack", Interpolate(b.techStack)))
    ensures b.techStack.None? ==> Contains(r, Line("Tech Stack", "undefined"))
    ensures Contains(r, Line("Target Audience", Interpolate(b.audience)))
    ensures Contains(r, Line("Platform", Interpolate(b.platform)))
    ensures OccursTwice(r, Interpolate(b.platform))
    ensures |Instructions| <= |r| && r[|r| - |Instructions|..] == Instructions
  {
    Compose(Interpolate(b.productName), Interpolate(b.description), Interpolate(b.techStack),
            Interpolate(b.audience), Interpolate(b.platform))
  }

  /** The first `/api/generate` handler (server/index.js:39-65). */
  function Handle<J>(b: Body, generate: string -> Reply, parse: string -> Option<J>): (x: Exchange<J>)
    ensures x.response == BadRequest(MissingFields) <==> !HasRequiredFields(b)
    ensures x.modelPrompt.Some? <==> HasRequiredFields(b)
    ensures x.modelPrompt.Some? ==>
      && Contains(x.modelPrompt.value, Line("Product", b.productName.value))
      && Contains(x.modelPrompt.value, Line("Description", b.description.value))
      && Contains(x.modelPrompt.value, Line("Platform", b.platform.value))
      && Contains(x.modelPrompt.value, Line("Tech Stack", Interpolate(b.techStack)))
    ensures x.response.Success? ==> x.modelPrompt.Some? && generate(x.modelPrompt.value).Text?
  {
    Decide(b, GeneratePrompt, generate, parse)
  }
}
