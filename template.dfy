/** The prompt template shared by both copies of `generatePrompt`
    (api/index.js:17-36, server/index.js:17-36): a preamble, one labelled
    line per field, a task line naming the platform again, and a fixed block
    of output-format instructions and per-platform structure hints. */
module Template {
  import opened ReplaceAll

  const Opening: string := "\n    Act as a senior marketing expert for developers.\n"

  const TaskLead: string := "\n    Task: Write a post/copy for this product specifically for "

  /** Everything after the platform name on the task line. It never mentions
      an input, and it lists the structure for X, LinkedIn and Landing Page
      whatever the requested platform is. */
  const Instructions: string :=
    ".\n    \n"
    + "    IMPORTANT: Return the response as a strictly valid JSON array of objects.\n"
    + "    Format: [{\"title\": \"Section Name\", \"content\": \"The content here\"}]\n"
    + "    \n"
    + "    Do not add markdown formatting like ```json. Just the raw JSON string.\n"
    + "    \n"
    + "    Structure the content based on the platform:\n"
    + "    - If X: Hook, Value Proposition, Tech Highlight, Call to Action.\n"
    + "    - If LinkedIn: Intro, Problem, Solution, Why it matters, Call to Action.\n"
    + "    - If Landing Page: Headline, Subheading, Key Features, Call to Action.\n"
    + "  "

  /** One indented `Label: value` line of the prompt. */
  function Line(name: string, value: string): string
  {
    "    " + name + ": " + value + "\n"
  }

  /** `t` occurs somewhere in `s`. */
  predicate Contains(s: string, t: string)
  {
    exists k :: 0 <= k <= |s| - |t| && OccursAt(s, t, k)
  }

  /** `t` occurs in `s` at two places that do not overlap. */
  predicate OccursTwice(s: string, t: string)
  {
    exists i, j :: 0 <= i && i + |t| <= j <= |s| - |t| && OccursAt(s, t, i) && OccursAt(s, t, j)
  }

  /** A string ends with itself. */
  lemma OccursAtEnd(s: string, t: string)
    ensures OccursAt(s + t, t, |s|)
  {
    assert (s + t)[|s|..|s| + |t|] == t;
  }

  /** Appending text keeps an occurrence where it was. */
  lemma OccursBefore(s: string, u: string, t: string, k: int)
    requires OccursAt(s, t, k)
    ensures OccursAt(s + u, t, k)
  {
    assert (s + u)[k..k + |t|] == s[k..k + |t|];
  }

  /** Prefixing text shifts an occurrence by the prefix's length. */
  lemma OccursAfter(u: string, s: string, t: string, k: int)
    requires OccursAt(s, t, k)
    ensures OccursAt(u + s, t, |u| + k)
  {
    assert (u + s)[|u| + k..|u| + k + |t|] == s[k..k + |t|];
  }

  /** The prompt for already-rendered field texts. Each field sits verbatim
      on its own labelled line, the platform appears a second time on the
      task line, and the text starts with the same preamble and ends with
      the same instruction block for every input. */
  function Compose(productName: string, description: string, techStack: string,
                   audience: string, platform: string): (r: string)
    ensures Contains(r, Line("Product", productName))
    ensures Contains(r, Line("Description", description))
    ensures Contains(r, Line("Tech Stack", techStack))
    ensures Contains(r, Line("Target Audience", audience))
    ensures Contains(r, Line("Platform", platform))
    ensures OccursTwice(r, platform)
    ensures |Opening| + |Instructions| <= |r|
    ensures r[..|Opening|] == Opening && r[|r| - |Instructions|..] == Instructions
  {
    PromptShape(Opening, TaskLead, Instructions, productName, description, techStack, audience, platform);
    Opening + Line("Product", productName) + Line("Description", description)
    + Line("Tech Stack", techStack) + Line("Target Audience", audience)
    + Line("Platform", platform) + TaskLead + platform + Instructions
  }

  /** The shape of the template, for any preamble, task lead and trailer. */
  lemma PromptShape(opening: string, lead: string, trailer: string,
                    productName: string, description: string, techStack: string,
                    audience: string, platform: string)
    ensures var r := opening + Line("Product", productName) + Line("Description", description)
                     + Line("Tech Stack", techStack) + Line("Target Audience", audience)
                     + Line("Platform", platform) + lead + platform + trailer;
      && Contains(r, Line("Product", productName))
      && Contains(r, Line("Description", description))
      && Contains(r, Line("Tech Stack", techStack))
      && Contains(r, Line("Target Audience", audience))
      && Contains(r, Line("Platform", platform))
      && OccursTwice(r, platform)
      && |opening| + |trailer| <= |r|
      && r[..|opening|] == opening && r[|r| - |trailer|..] == trailer
  {
    var product := Line("Product", productName);
    var desc := Line("Description", description);
    var tech := Line("Tech Stack", techStack);
    var aud := Line("Target Audience", audience);
    var plat := Line("Platform", platform);
    var s1 := opening + product;
    var s2 := s1 + desc;
    var s3 := s2 + tech;
    var s4 := s3 + aud;
    var s5 := s4 + plat;
    var s6 := s5 + lead;
    var s7 := s6 + platform;
    var r := s7 + trailer;
    // Each line, once placed, survives every later append.
    OccursAtEnd(opening, product);
    OccursBefore(s1, desc, product, |opening|);
    OccursAtEnd(s1, desc);
    OccursBefore(s2, tech, product, |opening|);
    OccursBefore(s2, tech, desc, |s1|);
    OccursAtEnd(s2, tech);
    OccursBefore(s3, aud, product, |opening|);
    OccursBefore(s3, aud, desc, |s1|);
    OccursBefore(s3, aud, tech, |s2|);
    OccursAtEnd(s3, aud);
    OccursBefore(s4, plat, product, |opening|);
    OccursBefore(s4, plat, desc, |s1|);
    OccursBefore(s4, plat, tech, |s2|);
    OccursBefore(s4, plat, aud, |s3|);
    OccursAtEnd(s4, plat);
    // The platform inside its own line.
    var before := "    " + "Platform" + ": ";
    OccursAtEnd(before, platform);
    OccursBefore(before + platform, "\n", platform, |before|);
    assert plat == before + platform + "\n";
    OccursAfter(s4, plat, platform, |before|);
    var first := |s4| + |before|;
    SurvivesTail(s5, lead, platform, trailer, product, |opening|);
    SurvivesTail(s5, lead, platform, trailer, desc, |s1|);
    SurvivesTail(s5, lead, platform, trailer, tech, |s2|);
    SurvivesTail(s5, lead, platform, trailer, aud, |s3|);
    SurvivesTail(s5, lead, platform, trailer, plat, |s4|);
    SurvivesTail(s5, lead, platform, trailer, platform, first);
    // The platform on the task line.
    OccursAtEnd(s6, platform);
    OccursBefore(s7, trailer, platform, |s6|);
    assert r[..|opening|] == opening by {
      assert s1[..|opening|] == opening;
      assert r[..|opening|] == s1[..|opening|];
    }
    assert r[|s7|..] == trailer;
  }

  /** An occurrence in `s5` survives appending the task line and instructions. */
  lemma SurvivesTail(s5: string, lead: string, platform: string, tail: string, t: string, k: int)
    requires OccursAt(s5, t, k)
    ensures OccursAt(s5 + lead + platform + tail, t, k)
  {
    OccursBefore(s5, lead, t, k);
    OccursBefore(s5 + lead, platform, t, k);
    OccursBefore(s5 + lead + platform, tail, t, k);
  }
}
