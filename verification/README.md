# Chatbot response acceptance and rewrite pipeline

A Dafny model of the core of a small chatbot service (`server.js`). The
service answers `GET /chatbot?message=...`. It builds a draft reply and sends
the message and the draft to an evaluation service. The service returns a
verdict: an overall score and the list of quality rules the draft triggered.
The draft is then either rejected or rewritten with the word substitutions
that the triggered rules suggest.

Modules, following the pipeline:

- `Wrappers` (`wrappers.dfy`): `Option` and `Result`.
- `Evaluation` (`evaluation.dfy`): the verdict. `Verdict(overall, rules)`,
  `Rule(id, data)`, `RuleData(suggestions)`, `SuggestionPair(sourceWords, replacements)`.
- `Acceptance` (`acceptance.dfy`): `isResponseAccceptable`. A score below 60
  rejects. One of the two hard-coded critical rule ids rejects too.
- `Matching` (`matching.dfy`): one suggestion pair applied with
  `text.replace(new RegExp(sourceWords.join('|'), 'gi'), callback)`. The text
  is cut into kept characters and matched occurrences (`Scan`). Each occurrence
  is then replaced by the callback's pick (`Render`). A pick is
  `Math.floor(u * replacements.length)` for the next `Math.random()` value `u`.
- `Improvement` (`improvement.dfy`): `improveResponse`. `Improve` is the
  functional fold over rules and pairs. `ImproveResponse` is the source's
  nested loop, proved equal to it.
- `Chatbot` (`chatbot.dfy`): the `/chatbot` handler as a function from the
  request's inputs to `(status, body)`.
- `Scenarios` (`scenarios.dfy`): concrete requests and rewrites.

Inputs that stand for I/O or randomness:

- The response source (`getResponse`) is a function parameter `string -> string`.
- The evaluation call (`evaluateResponse`) is a parameter
  `(userMessage, serverMessage) -> Result<Verdict, EvaluationError>`.
  `Failure` covers a non-ok status, a failed request and an unparsable body.
- `Math.random` is a parameter `random: nat -> Fraction`. `random(k)` is the
  k-th value drawn during one `improveResponse` call, a real in [0, 1). The
  draw counter is threaded through the rewrite as `Rewritten.next`.

Behaviour of `server.js` that the model keeps as written:

- The message counts as missing when it is absent and also when it is the
  empty string (`!userMessage`).
- The terms of a pair form an ordered list. At a position, the first term in
  list order that matches wins; it need not be the longest.
- An empty `sourceWords` list joins to the empty pattern. That pattern matches
  before every character and at the end, so the replacement is inserted there
  (`Matching.ReplaceAllEmptyTerms`).
- An empty `replacements` list makes the callback return `undefined`. That
  inserts the word "undefined" for every occurrence (`Matching.Candidates`).
- The threshold (60) and the critical ids are constants, not configuration.
- Replacement text is inserted literally. A callback result gets no `$` expansion.

## Model

| member | source | states |
|---|---|---|
| `Acceptance.SomeCritical` | server.js:107 | the `some(... includes ...)` scan is true exactly when some rule's id is one of the two critical ids |
| `Acceptance.IsResponseAcceptable` | server.js:91-108 | a score below 60 rejects whatever the rules are; otherwise the verdict is accepted exactly when no rule id is critical (either condition alone rejects) |
| `Acceptance.AcceptanceDependsOnScoreAndIds` | server.js:98-107 | two verdicts with the same score and the same set of rule ids get the same decision |
| `Matching.Canonicalize` | server.js:125 | on ASCII letters: each lower-case letter becomes its upper-case form, so no result is a lower-case ASCII letter; the model leaves every other character as it is |
| `Matching.EqualIgnoringCase` | server.js:125 | texts compared under the `i` flag: equal texts compare equal, and texts that compare equal have the same length |
| `Matching.FirstMatch` | server.js:125 | the alternative taken at a position is an index into the term list and fits inside the text |
| `Matching.FirstMatchIsFirst` | server.js:125 | alternation order: the taken term matches there ignoring case, no earlier term does, and when none is taken no term matches there |
| `Matching.Scan` | server.js:125-126 | the search over the whole text cuts it into pieces that concatenate back to the text |
| `Matching.ScanFromStep` | server.js:125-126 | one step of the global search: the pieces emitted at a position cover the text up to where it resumes, each is what the search takes at its offset, and it resumes at the same position only for the empty match at the end, which ends the scan |
| `Matching.ScanFromScannedAt` | server.js:125-126 | each piece is what the leftmost-first search takes at its offset: an occurrence is the text under the first alternative matching there, and a kept character (not just after an empty occurrence) is at an offset where no alternative matches |
| `Matching.ScanFromFindsOccurrence` | server.js:125-126 | when some alternative matches at or after the start, the search finds at least one occurrence |
| `Matching.ScanFromCountBound` | server.js:125-127 | at most one occurrence per position of the text and one at its end, so at most that many random draws |
| `Matching.ScanFromCovers` | server.js:125-126 | the kept characters and matched occurrences concatenate back to the text, so occurrences do not overlap and come left to right |
| `Matching.ScanFromMatchesAlternatives` | server.js:125 | every matched occurrence equals one of the terms up to ASCII case |
| `Matching.ScanFromWithoutOccurrence` | server.js:125 | a text in which no term matches at any position yields no occurrence |
| `Matching.Pick` | server.js:127 | `Math.floor(u * n)` for u in [0, 1) is an index below n when n > 0, and 0 when n = 0 |
| `Matching.PickIsUniform` | server.js:127 | index j is picked exactly when u lies in [j/n, (j+1)/n), so every replacement is equally likely |
| `Matching.Replacement` | server.js:126-128 | the callback returns an element of `replacements`, or "undefined" when the list is empty |
| `Matching.Render` | server.js:126-128 | one random draw is spent per occurrence, not per rule or pair |
| `Matching.RenderFillsDraws` | server.js:126-128 | the m-th occurrence in text order is replaced by what the callback returns for draw k + m, and the text between occurrences is copied |
| `Matching.ReplaceAll` | server.js:125-128 | one `replace` call spends exactly one random draw per occurrence found in the text |
| `Matching.RenderInstantiates` | server.js:126-128 | the result copies every kept character and replaces every occurrence by one of the replacements |
| `Matching.RenderWithoutMatches` | server.js:126-128 | with no occurrence the text is copied unchanged and no random value is drawn |
| `Matching.ReplaceAllShape` | server.js:125-128 | one replace call covers the whole text; every piece is what the leftmost-first, case-insensitive search takes at its offset; an occurrence is found exactly when some term matches somewhere; each occurrence equals a term up to case; the m-th occurrence becomes the callback's result for the m-th draw of the call and the text between occurrences is copied; one draw per occurrence |
| `Matching.ReplaceAllWithoutOccurrence` | server.js:125-128 | a pair none of whose terms occurs in the text, ignoring case, leaves the text and the draws unchanged |
| `Matching.FirstMatchIgnoresCase` | server.js:125 | term lists that agree up to case take the same alternative at every position |
| `Matching.ScanFromIgnoresCase` | server.js:125 | term lists that agree up to case cut the text identically |
| `Matching.ReplaceAllIgnoresCaseOfTerms` | server.js:125 | the case in which the terms are written does not change the result (the `i` flag) |
| `Matching.RenderEmptyPattern` | server.js:125-128 | with a single replacement, the empty pattern puts it before every character and at the end, drawing once per position |
| `Matching.ReplaceAllEmptyTerms` | server.js:125-128 | with a single replacement, an empty `sourceWords` list inserts it before every character and at the end of the text |
| `Improvement.HasSuggestions` | server.js:120 | a rule without `data`, or whose data has no `suggestions`, is skipped |
| `Improvement.Suggestions` | server.js:120-121 | only a rule with `data.suggestions` contributes pairs |
| `Improvement.ApplyPairs` | server.js:121-129 | the pairs of one rule applied in order, each to the text the previous produced; the draw counter never goes back |
| `Improvement.Improve` | server.js:119-135 | the rules applied in order, each to the text the previous produced; the draw counter never goes back |
| `Improvement.ImproveResponse` | server.js:116-138 | the nested loop over rules and pairs returns exactly the fold `Improve` of the rules over the message, starting at draw 0 |
| `Improvement.ApplyPairsAppend` | server.js:121-129 | applying two lists of pairs one after the other is applying their concatenation |
| `Improvement.ImproveIsPairComposition` | server.js:119-129 | improving equals applying all suggestion pairs of all rules in list order, each to the text produced so far |
| `Improvement.ImproveAppend` | server.js:119-135 | later rules rewrite the text produced by earlier rules |
| `Improvement.ImproveWithoutSuggestions` | server.js:117-137 | when no rule carries `data.suggestions` (including no rules at all) the text comes back unchanged |
| `Chatbot.Missing` | server.js:24-25 | the empty string counts as missing (it is falsy), and a message that is not missing is present and has at least one character |
| `Chatbot.HandleChatbot` | server.js:22-55 | a missing or empty message gives 400 "Missing user message"; 500 exactly when the evaluation failed; 200 exactly when the verdict was accepted, with the improved draft as message; every error body is one of the three fixed messages |
| `Chatbot.MissingMessageReachesNoStage` | server.js:24-27 | with a missing message the reply does not depend on the response source, the evaluator or the random values |
| `Chatbot.RejectionHidesDraft` | server.js:39-43 | a rejected verdict gives 400 "Response did not meet quality standards", never the draft |
| `Chatbot.EvaluationFailureIsInternal` | server.js:47-54 | a failed evaluation gives 500 "Internal server error" whatever the failure was |
| `Scenarios.RulesChain` | server.js:119-129 | a rule turning "cat" into "dog" followed by one turning "dog" into "fish" rewrites "I have a Cat" to "I have a fish" |
| `Scenarios.DogPairAloneKeepsDraft` | server.js:125-128 | the "dog" to "fish" pair alone finds no occurrence in "I have a Cat" and leaves text and draws unchanged, so the chain's result needs the rules applied in order |
| `Scenarios.LowScoreIsRejected` | server.js:98-101 | a verdict with score 40 and no rules is answered with the 400 rejection |
| `Scenarios.CleanVerdictReturnsDraft` | server.js:45-46 | a verdict with score 90 and no rules is answered with 200 and the unmodified draft |
| `Scenarios.CriticalRuleIsRejected` | server.js:105-107 | a score of 95 with a critical rule triggered is still rejected |

## Left out

- HTTP plumbing: Express routing, `app.listen`, and `res.status(...).json(...)` are not modelled (server.js:1-9, 155-161). The model returns the `(status, body)` pair the handler sends.
- `evaluateResponse`'s `fetch` is not modelled: the URL, bearer header, JSON encoding and `response.json()` (server.js:63-84). Its outcome is the `evaluate` parameter.
- Malformed verdicts are treated as a failed evaluation (500). In the source the score check runs first. A body without `rules` but with a score below 60 still gets the 400 rejection. A body without `scores.overall` compares `undefined < 60` as false and passes the score check. Neither case is modelled.
- Non-numeric scores (`NaN`, strings coerced by `<`) are not modelled. The score is a real.
- A `message` query parameter that Express parses into an array or object is not modelled. The message is an optional string.
- Environment configuration (`dotenv`, server.js:3-4, 12-14), console logging (server.js:32, 48) and `async`/`await` scheduling carry no logic and are not modelled.
- `getResponse` (server.js:145-153) is a stub returning a constant. It is the `getResponse` parameter.
- test.js sends one request and prints the reply. It has no logic to model.
- Math.random's floating point is not modelled. `Math.floor(u * n)` is computed on exact reals, so the model ignores rounding in the product.
- Matching.ReplaceAll: requires every term to be free of RegExp syntax characters (`^ $ \ . * + ? ( ) [ ] { } |`). Terms with them change the pattern or make `new RegExp` throw, and full RegExp semantics are out of scope.
- Chatbot.HandleChatbot: requires the literal-term condition only when the verdict is accepted, because that is the only path that reaches the rewrite.
- Matching.Canonicalize, Matching.EqualIgnoringCase: fold ASCII letters only. The source's `i` flag also folds other letters (for example é and É). Text is compared by characters, not UTF-16 code units.
- Exceptions that typed inputs cannot cause are not modelled. One example is a `suggestions` value that is not iterable; in the source it would end in the 500 reply.
