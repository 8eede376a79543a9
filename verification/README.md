# Cronscribe request shaping, in Dafny

Cronscribe turns a natural-language schedule into a CRON expression and a CRON
expression into a description, by asking a language model. This project models
the decision code around those calls:

- the server action `generateCronExpressionAction`;
- the server action `describeCronExpressionAction`;
- their shared catch block, which maps a thrown error to a user-facing message;
- the submit and clear handlers of the `CronDescriptionGenerator` page component.

The model uses pure functions. Three things become explicit inputs:

- the rate limiter's verdict (`LimiterReply`: admitted, refused, or the call threw);
- the prompt flow's reply (`PromptReply`: an output record, or a thrown error with its `message`);
- the `x-forwarded-for` header value (an optional string).

Each action returns a `Run`. A `Run` holds the `ActionResult`, the key the
limiter was consulted with, and the input handed to the prompt flow. That input
is `None` when the flow was never invoked. This is how "the model is not called
when the request is refused" is stated.

Modules:

- `Optional` (optional.dfy): `Option`.
- `JsText` (js_text.dfy): the JavaScript string operations the code relies on:
  - `trim()` and the `\s` class, which share the same set of blank code points;
  - `split(/\s+/)`, where splitting `""` gives `[""]`, and a blank run at either end gives an empty piece;
  - `includes`, `toLowerCase()`, `join`, and `||` on strings.
- `CronShape` (cron_shape.dfy): the field-count test, defined once and used by
  both the server and the page. It trims, splits on blank runs, and accepts 5 or 6 fields.
- `Actions` (actions.dfy): the two server actions, their zod length rules and the catch block.
- `ActionProperties` (action_properties.dfy): lemmas relating several runs of the actions.
- `DescriptionGenerator` (description_generator.dfy): the page component's
  state, `handleSubmit`, `handleClear` and the submit button's `disabled` rule.
  It also holds end-to-end lemmas that feed a describe run into a submit.

Behaviours of the code worth knowing:

- The describe action does no field-count check of its own. It ignores
  `isValidCron` and returns the flow's output unchanged. A result with an empty
  description and no error is therefore possible. The page then shows nothing
  (`DescriptionGenerator.DescriptionReachesPage`).
- The description length rule is applied to the untrimmed text. So `" "` is
  accepted and reaches the flow (`ActionProperties.BlankDescriptionReachesPrompt`).
- The generate action consults the rate limiter before it validates the
  description. So an empty or over-long description still counts against the
  limit, and a refused request gets "Too many requests" whatever its text.
- The describe action's limiter key is always `'127.0.0.1'`. A placeholder
  constant shadows the header-derived key. The generate action uses
  `x-forwarded-for`, or `'api'` when that header is missing or empty.

## Model

| member | source | states |
|---|---|---|
| JsText.IsSpace | src/app/actions.ts:45 | the blank characters of `trim()` and `\s`: the ECMAScript WhiteSpace and LineTerminator code points (tab, line feed, vertical tab, form feed, carriage return, space, no-break space, U+1680, U+2000-U+200A, U+2028, U+2029, U+202F, U+205F, U+3000, U+FEFF); characterised through `TrimIsInfix` and `SplitPieces` |
| JsText.Truthy | src/app/actions.ts:61 | JavaScript truthiness of an optional string: present and non-empty; used for `x-forwarded-for \|\| 'api'` (src/app/actions.ts:21), the `e.message &&` guards (src/app/actions.ts:63, 98, 100) and the `result.description` / `result.error` tests (src/components/cron-description-generator.tsx:43, 45); its effect is stated by the contracts of `Actions.ErrorMessage`, `Actions.Generate` and `DescriptionGenerator.Display` |
| JsText.Or | src/app/actions.ts:21 | `x-forwarded-for \|\| 'api'`: the header value when present and non-empty, else the fallback; its use as the limiter key is stated by `Actions.Generate` |
| JsText.Trim | src/app/actions.ts:45 | `trim()`; characterised completely by `TrimIsInfix` and `RemoveSpacesOfTrim` |
| JsText.Split | src/app/actions.ts:45 | `split(/\s+/)`; its piece count and the pieces' contents (blank-free, together the non-blank characters, non-empty for non-empty trimmed input, while `""` splits into `[""]`) are stated by `SplitPieces`; where the piece boundaries fall is fixed only by the definition |
| JsText.Contains | src/app/actions.ts:61 | `includes`; characterised in both directions by `ContainsInfix` and `ContainsAt`/`ContainsWitness` |
| JsText.ToLower | src/app/actions.ts:63 | `toLowerCase()` on A-Z only (see Left out); every other character is kept, so the length is kept; `ContainsLowered` states that this lowering preserves occurrences |
| JsText.JoinWith | src/app/actions.ts:33 | `Array.prototype.join` of the zod issue messages (also at src/app/actions.ts:89); `JoinPieces` states its shape (no pieces give `""`, one piece is returned as is, more pieces start with the first and add one separator per neighbouring pair), and `CronShape.FieldsOfJoin` reads a single-space join back into its pieces; `Actions.DescriptionIssues` (at most one issue) and `Actions.Generate`/`Actions.Describe` fix the joined text to the single message |
| JsText.JoinPieces | src/app/actions.ts:33 | `join` gives `""` for no pieces, the piece itself for one, and otherwise starts with the first piece and has length (sum of the pieces) + (pieces - 1) * (separator length) |
| JsText.LeadingBlanks | src/app/actions.ts:45 | the length of the blank run that starts a string: every character before it is blank, and the character at it (if any) is not |
| JsText.TrailingBlanks | src/app/actions.ts:45 | the length of the blank run that ends a string: every character after the cut is blank, and the one just before it (if any) is not |
| JsText.TrimIsInfix | src/app/actions.ts:45 | `trim()` returns an infix of the input with only blanks cut off at both ends; the result neither starts nor ends with a blank; it is empty exactly when the input is all blanks |
| JsText.SplitPieces | src/app/actions.ts:45 | `split(/\s+/)` returns 1 + (number of maximal blank runs) pieces; no piece holds a blank; together the pieces hold exactly the non-blank characters; when the input is non-empty and has no blank at either end, no piece is empty (the empty input gives the one empty piece `[""]`) |
| JsText.RemoveSpacesOfTrim | src/app/actions.ts:45 | trimming removes only blank characters |
| JsText.ContainsInfix | src/app/actions.ts:61 | `includes` finds a substring wherever it sits in the message |
| JsText.ContainsAt | src/app/actions.ts:61 | conversely, `includes` answers true only when the substring occurs at some index of the message |
| JsText.ContainsWitness | src/app/actions.ts:61 | the same converse as a split: the message is some prefix, then the substring, then some suffix |
| JsText.ContainsLowered | src/app/actions.ts:63 | under the model's ASCII lowering, if a message contains a word, the lower-cased message contains the lower-cased word |
| CronShape.Fields | src/app/actions.ts:45 | `expr.trim().split(/\s+/)`; characterised by `FieldsAreWords` |
| CronShape.HasCronShape | src/app/actions.ts:45-46 | the one field-count test shared by the generate action and the page (src/components/cron-description-generator.tsx:31-32); characterised in both directions by `JoinedWordsShape` and `ShapeNormalForm` |
| CronShape.FieldsAreWords | src/app/actions.ts:45 | the fields of `expr.trim().split(/\s+/)`: a blank expression gives exactly `[""]`; otherwise every field is non-empty and blank-free; the fields hold the expression's non-blank characters; their count is 1 + the blank runs inside the trimmed text |
| CronShape.BlankHasNoShape | src/app/actions.ts:45-46 | a blank expression never passes the 5-or-6 test, because it splits into one field; so an expression that passes is non-empty |
| CronShape.FieldsOfJoin | src/app/actions.ts:45 | round trip: non-empty blank-free words joined with single spaces read back as the same words |
| CronShape.JoinedWordsShape | src/app/actions.ts:45-46 | words joined by spaces pass the field-count test if and only if there are exactly 5 or 6 of them |
| CronShape.ShapeNormalForm | src/components/cron-description-generator.tsx:31-32 | converse: an expression that passes is 5 or 6 non-empty blank-free words holding all its non-blank characters; re-joining them with single spaces keeps the same fields |
| Actions.GenericFailure | src/app/actions.ts:60 | the catch block's default text for each action ("...while generating..." here, "...while describing..." at src/app/actions.ts:97); `Actions.ErrorMessage` and `ActionProperties.ErrorMessagesShared` state when it is used |
| Actions.ErrorMessage | src/app/actions.ts:60-67 | the message is the timeout text if and only if it contains the case-sensitive "Deadline exceeded"; otherwise it is the quota text if and only if its lower-cased form contains "quota"; otherwise, including when there is no message, it is the action's generic text |
| Actions.DescriptionIssues | src/app/actions.ts:9-11 | the description is rejected if and only if its untrimmed length is 0 (giving "Description cannot be empty.") or over 250 (giving "Description is too long."); at most one issue arises, so the `", "` join is just that message |
| Actions.ExpressionIssues | src/app/actions.ts:71-73 | the describe input is rejected if and only if it is the empty string, with "CRON expression cannot be empty." |
| Actions.JudgeGenerated | src/app/actions.ts:39-54 | accepts if and only if `isValidSchedule` holds and the expression has 5 or 6 fields, and then returns it unchanged; `isValidSchedule` false gives the "Could not generate" text whatever the expression; a valid flag with an empty expression gives "did not return"; otherwise "invalid CRON format" |
| Actions.Generate | src/app/actions.ts:19-69 | limiter key is the forwarded address, or `'api'` if it is absent or empty; a refusal gives "Too many requests" whatever the input; the flow is invoked if and only if the limiter admits and 1 <= length <= 250, and it receives the description verbatim; exactly one of `cronExpression` and `error` is set, and neither is empty; success holds if and only if the flow answers a valid 5-or-6-field expression, which is returned untrimmed; thrown errors go through `ErrorMessage` |
| Actions.Describe | src/app/actions.ts:75-105 | limiter key is always `'127.0.0.1'`; a refusal gives "Too many requests"; the flow is invoked if and only if the limiter admits and the expression is non-empty; the flow's description is returned verbatim with no error and no field-count or `isValidCron` check; thrown errors go through `ErrorMessage` with the describe generic text |
| ActionProperties.ErrorMessagesShared | src/app/actions.ts:97-103 | the two catch blocks give the same text for a message if and only if it is classified as a timeout or a quota failure |
| ActionProperties.DeadlineMatchIsCaseSensitive | src/app/actions.ts:61-62 | "deadline exceeded" in lower case gets the generic text, not the timeout text |
| ActionProperties.DeadlineBeatsQuota | src/app/actions.ts:61-65 | a message holding both "Deadline exceeded" and a later "quota" gets the timeout text |
| ActionProperties.QuotaMatchIgnoresCase | src/app/actions.ts:63-64 | any casing of "quota", anywhere in a message without "Deadline exceeded", selects the quota text |
| ActionProperties.GenerateIgnoresUncalledPrompt | src/app/actions.ts:25-37 | when the generate action does not invoke the flow, the flow's reply changes nothing in the run |
| ActionProperties.DescribeIgnoresUncalledPrompt | src/app/actions.ts:81-92 | the same for the describe action |
| ActionProperties.DescribeIgnoresHeaderAndValidity | src/app/actions.ts:76-93 | the returned description or error, the limiter key and the flow input depend neither on the `x-forwarded-for` header nor on the `isValidCron` the flow reports (the returned object's own `isValidCron` copy is not modelled, see Left out) |
| ActionProperties.BlankDescriptionReachesPrompt | src/app/actions.ts:10 | an admitted `" "` description is not rejected and is passed to the flow |
| ActionProperties.FourFieldExpression | src/app/actions.ts:46 | `"0 8 * *"` fails the field-count test |
| ActionProperties.FiveFieldExpression | src/app/actions.ts:46 | `"0 8 * * 1"` passes the field-count test |
| ActionProperties.ThreeFieldExpression | src/app/actions.ts:46 | `"a b c"` fails the field-count test |
| ActionProperties.DescribeSkipsFieldCount | src/app/actions.ts:92-93 | the four-field `"0 8 * *"` still reaches the description flow |
| ActionProperties.GenerateRechecksFieldCount | src/app/actions.ts:43-50 | a flow answer `{"a b c", valid}` gives "invalid CRON format"; `{"0 8 * * 1", valid}` is returned as is |
| DescriptionGenerator.Display | src/components/cron-description-generator.tsx:43-51 | a description is shown if and only if the reply's description is non-empty, and it is exactly that text; an error is shown if and only if the call threw (page failure text) or the reply had no description but a non-empty error (that error) |
| DescriptionGenerator.Submit | src/components/cron-description-generator.tsx:20-55 | the typed text is kept; the action is called if and only if the text has 5 or 6 fields, and it gets the untrimmed text; blank text gives "Please enter a CRON expression.", never the parts message; other text without 5 or 6 fields gives the parts message; a description and an error are never shown together |
| DescriptionGenerator.Clear | src/components/cron-description-generator.tsx:57-61 | expression and description become `''`, and the error becomes `null` |
| DescriptionGenerator.SubmitDisabled | src/components/cron-description-generator.tsx:123 | the button is disabled if and only if a request is pending or the typed text is all blanks |
| DescriptionGenerator.SubmitForgetsPreviousOutput | src/components/cron-description-generator.tsx:22-23 | the previous description and error never influence a submit's outcome |
| DescriptionGenerator.ClearResets | src/components/cron-description-generator.tsx:57-61 | clearing restores the initial state; the submit button is then disabled; a submit anyway only shows the empty-expression message and calls nothing |
| DescriptionGenerator.EnabledSubmitIsNeverBlank | src/components/cron-description-generator.tsx:25-35 | with the button enabled, a submit either calls the action or shows the parts message |
| DescriptionGenerator.SentExpressionsPassServerValidation | src/components/cron-description-generator.tsx:38-41 | every expression the page sends passes the describe action's non-empty rule and reaches the flow when admitted |
| DescriptionGenerator.DescriptionReachesPage | src/components/cron-description-generator.tsx:43-47 | end to end: a non-empty flow description is shown as is; an empty one leaves the page with neither a description nor an error |
| DescriptionGenerator.RefusalReachesPage | src/components/cron-description-generator.tsx:45-46 | end to end: a rate-limit refusal is shown as "Too many requests" |

## Left out

- The prompt flows in src/ai/flows are not modelled. They are non-deterministic calls to the language model. Only their output records (`GenerateOutput`, `DescribeOutput`) are used, as inputs. A flow returning no output at all is not modelled.
- The rate limiter in src/lib/rate-limiter.ts is not modelled. It is a hosted sliding-window counter (5 requests per 60 seconds, key prefix `cron-gen`) whose algorithm lives in a library. Its verdict is an input, and each run records only the key passed to it.
- `headers()` is not modelled. Its value is the optional-string parameter `forwardedFor`. The call sits outside the `try`, so a failure there escapes the action; that failure is not modelled.
- A thrown `null` or `undefined` is not modelled. With such a value, `e.message` in the catch block would itself throw. The model assumes the thrown value is an object whose `message` may be missing or not a string.
- zod is modelled only through its length rules, and inputs are taken to be strings. JavaScript counts length in UTF-16 code units; the model counts characters.
- Actions.Describe: the returned object also carries the flow's `isValidCron` field. The model's `ActionResult` drops it, since no caller reads it.
- JsText.ToLower: `toLowerCase()` is modelled on the ASCII letters A-Z only. JavaScript applies the full Unicode mappings: U+0130 becomes two code units, and a capital sigma lower-cases by context. Those are not modelled. The quota test does not depend on them. Outside A-Z, only U+0130 and U+212A lower-case to ASCII letters ("i" and "k"), and neither letter occurs in "quota". So "quota" occurs in JavaScript's lower-cased message exactly when it occurs in the model's (positions can differ after an expanded U+0130). This argument is not itself proved.
- Actions.ErrorMessage: its quota test uses `JsText.ToLower`, so it inherits the ASCII-only lowering described on the line above.
- Logging (`console`), toasts, `startTransition`, the pending flag during a call, and overlapping submits are not modelled. A submit is modelled by its settled outcome, and the pending flag is a parameter of `SubmitDisabled`.
- The input's `onChange` setter, the component markup, src/app/page.tsx and the generator page component are not part of this model.
