/** How the two copies of the endpoint relate: they differ only in how the
    prompt renders a falsy tech stack. */
module Copies {
  import opened Wrappers
  import opened Request
  import opened Handler
  import Api
  import Server

  /** The two prompts coincide exactly when the tech stack is truthy: for an
      absent or empty one the api copy writes "Not specified" where the server
      copy writes "undefined" or nothing. */
  lemma PromptsAgreeIffTechStackGiven(b: Body)
    ensures Api.GeneratePrompt(b) == Server.GeneratePrompt(b) <==> Truthy(b.techStack)
  {
    if !Truthy(b.techStack) {
      assert |Api.TechStackText(b.techStack)| == 13;
      assert |Interpolate(b.techStack)| < 13;
      assert |Api.GeneratePrompt(b)| != |Server.GeneratePrompt(b)|;
    }
  }

  /** With a truthy tech stack the two handlers answer every request alike. */
  lemma HandlersAgreeWhenTechStackGiven<J>(b: Body, generate: string -> Reply, parse: string -> Option<J>)
    requires Truthy(b.techStack)
    ensures Api.Handle(b, generate, parse) == Server.Handle(b, generate, parse)
  {
    PromptsAgreeIffTechStackGiven(b);
  }
}
