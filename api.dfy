/** api/index.js: the deployed copy of the endpoint. */
module Api {
  import opened Wrappers
  import opened Request
  import opened Template
  import opened Handler

  /** `techStack || 'Not specified'` (api/index.js:21). */
  function TechStackText(f: Option<string>): (r: string)
    ensures r != ""
    ensures Truthy(f) ==> r == f.value
    ensures !Truthy(f) ==> r == "Not specified"
  {
    if Truthy(f) then f.value else "Not specified"
  }

  /** `generatePrompt` (api/index.js:14-37). Every field lands verbatim on
      its labelled line, a falsy tech stack reads "Not specified", the
      platform appears twice, and the instruction and guidance block is the
      same whatever the platform is. */
  function GeneratePrompt(b: Body): (r: string)
    ensures Contains(r, Line("Product", Interpolate(b.productName)))
    ensures Contains(r, Line("Description", Interpolate(b.description)))
    ensures Truthy(b.techStack) ==> Contains(r, Line("Tech Stack", b.techStack.value))
    ensures !Truthy(b.techStack) ==> Contains(r, Line("Tech Stack", "Not specified"))
    ensures Contains(r, Line("Target Audience", Interpolate(b.audience)))
    ensures Contains(r, Line("Platform", Interpolate(b.platform)))
    ensures OccursTwice(r, Interpolate(b.platform))
    ensures |Instructions| <= |r| && r[|r| - |Instructions|..] == Instructions
  {
    Compose(Interpolate(b.productName), Interpolate(b.description), TechStackText(b.techStack),
            Interpolate(b.audience), Interpolate(b.platform))
  }

  /** The `/api/generate` handler (api/index.js:39-65). A request it accepts
      has all three required fields, and the prompt the model receives
      carries their values verbatim. */
  function Handle<J>(b: Body, generate: string -> Reply, parse: string -> Option<J>): (x: Exchange<J>)
    ensures x.response == BadRequest(MissingFields) <==> !HasRequiredFields(b)
    ensures x.modelPrompt.Some? <==> HasRequiredFields(b)
    ensures x.modelPrompt.Some? ==>
      && Contains(x.modelPrompt.value, Line("Product", b.productName.value))
      && Contains(x.modelPrompt.value, Line("Description", b.description.value))
      && Contains(x.modelPrompt.value, Line("Platform", b.platform.value))
      && Contains(x.modelPrompt.value, Line("Tech Stack", TechStackText(b.techStack)))
    ensures x.response.Success? ==> x.modelPrompt.Some? && generate(x.modelPrompt.value).Text?
  {
    Decide(b, GeneratePrompt, generate, parse)
  }
}
