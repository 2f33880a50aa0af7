/** The JSON body posted to `/api/generate` and the JavaScript semantics the
    handlers apply to its fields. */
module Request {
  import opened Wrappers

  /** The five form fields; `None` is a field the body does not carry. */
  datatype Body = Body(
    productName: Option<string>,
    description: Option<string>,
    techStack: Option<string>,
    audience: Option<string>,
    platform: Option<string>)

  /** JavaScript truthiness of a string-or-missing value: present and not empty. */
  predicate Truthy(f: Option<string>): (t: bool)
    ensures !t <==> f == None || f == Some("")
  {
    f.Some? && f.value != ""
  }

  /** The guard `!productName || !description || !platform` fails. */
  predicate HasRequiredFields(b: Body): (ok: bool)
    ensures !ok <==> exists f :: f in [b.productName, b.description, b.platform] && (f == None || f == Some(""))
  {
    var required := [b.productName, b.description, b.platform];
    assert b.productName in required && b.description in required && b.platform in required;
    Truthy(b.productName) && Truthy(b.description) && Truthy(b.platform)
  }

  /** What `${f}` puts into a template literal: the string itself, or
      "undefined" for a missing field. */
  function Interpolate(f: Option<string>): (r: string)
    ensures Truthy(f) ==> r == f.value
    ensures r == "" <==> f == Some("")
  {
    match f
    case Some(v) => v
    case None => "undefined"
  }

  /** The guard never looks at the tech stack or the audience. */
  lemma GuardIgnoresOptionalFields(b: Body, techStack: Option<string>, audience: Option<string>)
    ensures HasRequiredFields(b) == HasRequiredFields(b.(techStack := techStack, audience := audience))
  {
  }
}
