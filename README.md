# Product-marketing copy generator: the `/api/generate` endpoint in Dafny

The application is a browser form that posts five fields (`productName`,
`description`, `techStack`, `audience`, `platform`) to an Express endpoint,
`POST /api/generate`. The endpoint:

1. rejects the request with 400 `"Missing fields"` unless `productName`,
   `description` and `platform` are all truthy;
2. fills a fixed prompt template with the five fields;
3. sends the prompt to a Gemini model;
4. deletes every "```json" and then every "```" from the reply and trims it;
5. parses the result with `JSON.parse` and answers `{success: true, content}`.
   Any exception after validation gives 500
   `"Failed to generate content. Try again."`.

The endpoint exists twice. `api/index.js` is the deployed copy.
`server/index.js` is the local copy. The two differ in one place: the api copy
writes `Not specified` for a falsy tech stack, while the server copy
interpolates the value as it is.

The model is pure, as the source is. Each step is a function, and the
properties are function contracts and lemmas.

- `Wrappers`: the `Option` type. A missing body field is `None`.
- `Request`: the request body, JavaScript truthiness, the required-field
  guard, and what `${f}` renders (`"undefined"` for a missing field).
- `ReplaceAll`: `s.replace(/p/g, '')` for a literal pattern. The scan goes
  left to right and deletes the leftmost occurrence first.
- `JsTrim`: `String.prototype.trim`, using ECMAScript's exact set of
  white-space and line-terminator characters.
- `Cleanup`: the one-line cleanup of the reply, and what is proved about it.
  The cleaned text contains no fence marker and has no white space at either
  end. Cleaning is idempotent. A reply wrapped in a ```json fenced block
  cleans to exactly the JSON inside it. The no-fence result depends on the
  scan taking the leftmost match and on "```" being a run of a single
  character: deleting one fence can never splice a new one together.
- `Template`: the prompt text that both copies share, and what every prompt
  contains. Each field appears verbatim on its own labelled line. The
  platform appears twice. The preamble, and the instruction block with the
  X/LinkedIn/Landing Page guidance, are the same for every input.
- `Handler`: the decision the handler makes. The model call and `JSON.parse`
  are parameters. The result records which prompt, if any, the model call
  receives.
- `Api`, `Server`: each copy's `generatePrompt` and handler.
- `Copies`: the two copies give the same prompt exactly when the tech stack
  is truthy, and the same response whenever it is truthy.

Two behaviours of the prompt builder are worth stating directly:

- Every prompt lists the structure hints for all three platforms, whatever
  platform was requested (api/index.js:32-35).
- Only the api copy substitutes a placeholder, and only for the tech stack
  (api/index.js:21). A missing audience renders as `undefined` in both copies.

## Model

| member | source | states |
|---|---|---|
| ReplaceAll.RemoveAll | api/index.js:54 | `.replace(/p/g, '')` for a literal pattern never lengthens the text. Its full characterisation is `RemoveAllSplits` with `RemoveAllLeftmost`, which `PiecesUnique` shows determine the result. |
| ReplaceAll.RemoveAllSplits | api/index.js:54 | The global replace splits the input at the deleted occurrences. Joining the kept pieces with the pattern gives back the input. Concatenating the pieces gives the result. No kept piece contains the pattern. |
| ReplaceAll.RemoveAllLeftmost | api/index.js:54 | The scan takes the leftmost occurrence first: no occurrence of the pattern starts inside a kept piece that is followed by a deleted one. |
| ReplaceAll.PiecesUnique | api/index.js:54 | For a non-empty pattern, any split of the input with the facts of `RemoveAllSplits` and `RemoveAllLeftmost` is the scan's own split. Those facts therefore determine the result of the global replace. |
| ReplaceAll.RemoveAllAbsent | api/index.js:54 | Replacing a pattern that does not occur leaves the text unchanged. |
| JsTrim.TrimStart | api/index.js:54 | The result is a suffix of the input. Everything dropped is white space. The result does not start with white space. |
| JsTrim.TrimEnd | api/index.js:54 | The result is a prefix of the input. Everything dropped is white space. The result does not end with white space. |
| JsTrim.Trim | api/index.js:54 | `trim()` returns a contiguous slice of the input with only white space outside it and none at either of its ends. An already trimmed string comes back unchanged. |
| Cleanup.RemoveFencesLeavesNone | api/index.js:54 | After every "```" is deleted by the leftmost-first scan, the text contains no "```". |
| Cleanup.Clean | api/index.js:53-54 | The whole cleanup expression. The cleaned reply contains neither "```" nor "```json" and has no leading or trailing white space. |
| Cleanup.CleanIdempotent | api/index.js:54 | Cleaning an already cleaned reply leaves it unchanged. |
| Cleanup.CleanFencedReply | api/index.js:54 | A reply of the form "```json\n" + J + "\n```" cleans to exactly J, for any trimmed J (the empty one included) that contains no "```". Single backticks in J, such as inline code, survive. |
| Cleanup.CleanBracketExample | api/index.js:54 | The reply "```json\n[X]\n```" cleans to exactly "[X]". |
| Cleanup.CleanHookExample | server/index.js:54 | The fenced reply holding `[{"title":"Hook","content":"Hi"}]` cleans to exactly that array. |
| Request.Truthy | api/index.js:42 | Definition of JavaScript truthiness for a string-or-missing field: falsy exactly when missing or the empty string. |
| Request.HasRequiredFields | api/index.js:41-44 | Definition of the required-field guard: it fails exactly when one of productName, description or platform is missing or empty. |
| Request.GuardIgnoresOptionalFields | api/index.js:41-44 | Changing techStack or audience never changes whether the guard passes. |
| Request.Interpolate | api/index.js:19-23 | `${f}` renders a truthy field as its own value. It renders empty only for the empty string, since a missing field renders as "undefined". |
| Api.TechStackText | api/index.js:21 | The tech-stack default is the value itself when truthy and "Not specified" otherwise, so the tech-stack line is never blank. |
| Template.Compose | api/index.js:17-36 | Each field text appears verbatim on its own labelled line. The platform appears at two non-overlapping places. Every prompt starts with the same preamble and ends with the same instruction and platform-guidance block. |
| Api.GeneratePrompt | api/index.js:14-37 | Product, description, audience and platform appear verbatim on their lines, with `undefined` for a missing field. The platform appears twice. The tech-stack line holds the given value when it is truthy and "Not specified" otherwise. The guidance block does not depend on the platform. |
| Server.GeneratePrompt | server/index.js:13-37 | Same as the api copy, except that the tech stack is interpolated with no placeholder: a missing one reads "undefined". |
| Handler.Decide | api/index.js:39-65 | It answers 400 "Missing fields" exactly when productName, description or platform is falsy; techStack and audience are not checked. In that case neither the prompt builder nor the model is reached. Otherwise the prompt is built and the model is called with it. The status is 400, 200 or 500 to match. The answer is 200 success exactly when the model replies and the cleaned reply parses; the content is then the parse result. Every other outcome is 500 "Failed to generate content. Try again.". |
| Handler.RejectionIgnoresModel | api/index.js:42-49 | For a request that fails validation, the outcome does not depend on the prompt builder, the model or the parser. |
| Handler.SuccessParsedCleanText | api/index.js:53-59 | On success, the text that was parsed had no fences and no surrounding white space, and cleaning it again would not change it. |
| Api.Handle | api/index.js:39-65 | The api handler rejects exactly the requests that lack a required field. It builds a prompt and calls the model only for accepted requests. That prompt carries the product, description and platform verbatim, plus the tech-stack line. |
| Server.Handle | server/index.js:39-65 | The same as `Api.Handle` for the first server handler, except that the tech-stack line shows the raw interpolation. |
| Copies.PromptsAgreeIffTechStackGiven | server/index.js:21 | The two copies of `generatePrompt` give the same prompt if and only if the tech stack is truthy. |
| Copies.HandlersAgreeWhenTechStackGiven | server/index.js:39-65 | With a truthy tech stack, both handlers give the same response and build the same prompt, whatever the model and parser do. |

## Left out

- The Gemini client (`getGenerativeModel`, `generateContent`, `response.text()`, the model name) is a network call. It is a `generate` parameter that returns the reply text or a failure.
- `JSON.parse` is a library parser. It is a `parse` parameter that may reject its input. The JSON grammar is not modelled, so neither is the client's render-and-reparse round trip of `{title, content}` items.
- Body fields are modelled as a string or missing. A JSON `null`, a number or a boolean in a field, or a body that is not a JSON object, is not modelled. For such values JavaScript truthiness and `${}` rendering differ (`null` renders as "null").
- JavaScript strings are sequences of UTF-16 code units, while the model uses Unicode scalar values. None of the patterns or white-space characters involved is a surrogate, so the cleanup behaves the same either way.
- Express and environment setup (`express.json`, `cors`, `dotenv`, `app.listen`, the `PORT` fallback, `module.exports`) is configuration. Logging, including the print of the API key at api/index.js:12, is I/O.
- The second `/api/generate` registration in server/index.js:67-88 never runs. The first handler answers every request on every path.
- client/src/App.jsx (form state, rendering, the `fetch` call) is UI and is not part of this model.
- Requests run concurrently, but they share no mutable state apart from the Gemini client object, so concurrency is not modelled.
