/**
  The two server actions of Cronscribe: `generateCronExpressionAction`
  (schedule description to CRON expression) and `describeCronExpressionAction`
  (CRON expression to description), as decision functions. The rate limiter's
  verdict and the prompt flow's reply are inputs; a thrown error is the reply
  variant that carries the error's `message`. Each action reports the limiter
  key it used and the input it handed to the prompt flow, if any.
 */
module Actions {
  import opened Optional
  import opened JsText
  import opened CronShape

  /** The object an action hands back to the page (`ActionResult`). */
  datatype ActionResult = ActionResult(cronExpression: Option<string>, description: Option<string>, error: Option<string>)

  function Failed(message: string): ActionResult {
    ActionResult(None, None, Some(message))
  }

  /** What the generation prompt returns. */
  datatype GenerateOutput = GenerateOutput(cronExpression: string, isValidSchedule: bool)

  /** What the description prompt returns. */
  datatype DescribeOutput = DescribeOutput(description: string, isValidCron: bool)

  /** The outcome of `rateLimiter.limit(key)`: the request is admitted, it is
      refused, or the call throws an error whose `message` is given when it is
      a string. */
  datatype LimiterReply = Admitted | Refused | LimiterThrew(message: Option<string>)

  /** The outcome of a prompt flow call, should the action make one. */
  datatype PromptReply<T> = Answered(output: T) | PromptThrew(message: Option<string>)

  /** One run of an action: its result, the key it passed to the limiter (the
      limiter is always consulted, first) and the input it passed to the prompt
      flow, `None` when the flow was never invoked. */
  datatype Run = Run(result: ActionResult, limiterKey: string, promptInput: Option<string>)

  datatype Action = Generating | Describing

  const TooManyRequests := "Too many requests. Please try again later."
  const DescriptionEmpty := "Description cannot be empty."
  const DescriptionTooLong := "Description is too long."
  const MaxDescriptionLength := 250
  const NoSchedule := "Could not generate a CRON expression from the provided text. Please describe a valid schedule."
  const InvalidFormat := "The AI generated an invalid CRON format. Please try rephrasing your request."
  const NoExpression := "The AI did not return a CRON expression. Please try again."
  const CronExpressionEmpty := "CRON expression cannot be empty."
  const TimedOut := "The request timed out. Please try again."
  const OverQuota := "The service is currently experiencing high load or has reached its quota. Please try again later."
  const DeadlineMarker := "Deadline exceeded"
  const QuotaMarker := "quota"
  /** The generate action's limiter key when `x-forwarded-for` is absent or empty. */
  const FallbackKey := "api"
  /** The describe action's limiter key: a placeholder that shadows the header-derived one. */
  const PlaceholderKey := "127.0.0.1"
  /** The separator zod issue messages are joined with. */
  const IssueSeparator := ", "

  function GenericFailure(action: Action): string {
    match action
    case Generating => "An error occurred while generating the CRON expression."
    case Describing => "An error occurred while describing the CRON expression."
  }

  /** The catch block shared by both actions: a case-sensitive "Deadline
      exceeded" wins, then a case-insensitive "quota", else the action's
      generic message. A missing or non-string `message` gets the generic one. */
  function ErrorMessage(action: Action, message: Option<string>): (text: string)
    ensures text == TimedOut <==> message.Some? && Contains(message.value, DeadlineMarker)
    ensures text == OverQuota <==>
              message.Some? && !Contains(message.value, DeadlineMarker)
              && Contains(ToLower(message.value), QuotaMarker)
    ensures text == GenericFailure(action) <==>
              message.None?
              || (!Contains(message.value, DeadlineMarker) && !Contains(ToLower(message.value), QuotaMarker))
  {
    if Truthy(message) && Contains(message.value, DeadlineMarker) then TimedOut
    else if Truthy(message) && Contains(ToLower(message.value), QuotaMarker) then OverQuota
    else GenericFailure(action)
  }

  /** The zod issues of `ActionInputSchema` for a description, in check order
      (`min(1)` then `max(250)`); the length is not trimmed first. */
  function DescriptionIssues(description: string): (issues: seq<string>)
    ensures |issues| <= 1
    ensures issues == [] <==> 1 <= |description| <= MaxDescriptionLength
    ensures |description| == 0 ==> issues == [DescriptionEmpty]
    ensures |description| > MaxDescriptionLength ==> issues == [DescriptionTooLong]
  {
    (if |description| < 1 then [DescriptionEmpty] else [])
    + (if |description| > MaxDescriptionLength then [DescriptionTooLong] else [])
  }

  /** The zod issues of `DescribeActionInputSchema`: only `min(1)`. */
  function ExpressionIssues(expression: string): (issues: seq<string>)
    ensures issues == [] <==> expression != ""
    ensures expression == "" ==> issues == [CronExpressionEmpty]
  {
    if |expression| < 1 then [CronExpressionEmpty] else []
  }

  /** The checks the generate action applies to what the prompt returned. */
  function JudgeGenerated(output: GenerateOutput): (result: ActionResult)
    ensures result.cronExpression.Some? <==> output.isValidSchedule && HasCronShape(output.cronExpression)
    ensures result.cronExpression.Some? ==> result == ActionResult(Some(output.cronExpression), None, None)
    ensures !output.isValidSchedule ==> result == Failed(NoSchedule)
    ensures output.isValidSchedule && output.cronExpression == "" ==> result == Failed(NoExpression)
    ensures output.isValidSchedule && output.cronExpression != "" && !HasCronShape(output.cronExpression) ==>
              result == Failed(InvalidFormat)
  {
    if !output.isValidSchedule then Failed(NoSchedule)
    else if output.cronExpression != "" then
      if !HasCronShape(output.cronExpression) then Failed(InvalidFormat)
      else ActionResult(Some(output.cronExpression), None, None)
    else Failed(NoExpression)
  }

  /** `generateCronExpressionAction(input)` with `x-forwarded-for` equal to
      `forwardedFor`, the limiter answering `limiter` and the generation flow
      answering `prompt` (when it is called at all). */
  function Generate(forwardedFor: Option<string>, description: string, limiter: LimiterReply,
                    prompt: PromptReply<GenerateOutput>): (run: Run)
    // keyed by the forwarded address, "api" when that header is missing or empty
    ensures run.limiterKey == (if forwardedFor.Some? && forwardedFor.value != "" then forwardedFor.value else FallbackKey)
    // the flow runs exactly when the limiter admits and the untrimmed length is 1..250
    ensures run.promptInput.Some? <==> limiter.Admitted? && 1 <= |description| <= MaxDescriptionLength
    ensures run.promptInput.Some? ==> run.promptInput.value == description
    // exactly one of cronExpression and error, neither empty
    ensures run.result.description.None?
    ensures run.result.cronExpression.Some? != run.result.error.Some?
    ensures run.result.cronExpression.Some? ==> run.result.cronExpression.value != ""
    ensures run.result.error.Some? ==> run.result.error.value != ""
    // the limiter is consulted before the input is validated
    ensures limiter.Refused? ==> run.result == Failed(TooManyRequests)
    ensures limiter.LimiterThrew? ==> run.result == Failed(ErrorMessage(Generating, limiter.message))
    ensures limiter.Admitted? && |description| == 0 ==> run.result == Failed(DescriptionEmpty)
    ensures limiter.Admitted? && |description| > MaxDescriptionLength ==> run.result == Failed(DescriptionTooLong)
    // success exactly when the flow answers a valid schedule of 5 or 6 fields, returned as produced
    ensures run.result.cronExpression.Some? <==>
              run.promptInput.Some? && prompt.Answered? && prompt.output.isValidSchedule
              && HasCronShape(prompt.output.cronExpression)
    ensures run.result.cronExpression.Some? ==> run.result.cronExpression.value == prompt.output.cronExpression
    ensures run.promptInput.Some? && prompt.Answered? ==> run.result == JudgeGenerated(prompt.output)
    ensures run.promptInput.Some? && prompt.PromptThrew? ==>
              run.result == Failed(ErrorMessage(Generating, prompt.message))
  {
    var key := Or(forwardedFor, FallbackKey);
    match limiter
    case LimiterThrew(message) => Run(Failed(ErrorMessage(Generating, message)), key, None)
    case Refused => Run(Failed(TooManyRequests), key, None)
    case Admitted =>
      var issues := DescriptionIssues(description);
      if issues != [] then
        Run(Failed(JoinWith(issues, IssueSeparator)), key, None)
      else
        match prompt
        case PromptThrew(message) => Run(Failed(ErrorMessage(Generating, message)), key, Some(description))
        case Answered(output) => Run(JudgeGenerated(output), key, Some(description))
  }

  /** `describeCronExpressionAction({cronExpression})`. The forwarded address is
      read but the limiter key is the placeholder; the flow's output is handed
      back unchanged. */
  function Describe(forwardedFor: Option<string>, expression: string, limiter: LimiterReply,
                    prompt: PromptReply<DescribeOutput>): (run: Run)
    ensures run.limiterKey == PlaceholderKey
    ensures run.promptInput.Some? <==> limiter.Admitted? && expression != ""
    ensures run.promptInput.Some? ==> run.promptInput.value == expression
    ensures run.result.cronExpression.None?
    ensures run.result.description.Some? != run.result.error.Some?
    ensures run.result.error.Some? ==> run.result.error.value != ""
    ensures limiter.Refused? ==> run.result == Failed(TooManyRequests)
    ensures limiter.LimiterThrew? ==> run.result == Failed(ErrorMessage(Describing, limiter.message))
    ensures limiter.Admitted? && expression == "" ==> run.result == Failed(CronExpressionEmpty)
    // whatever the flow answers is returned, valid or not, with no field-count check
    ensures run.promptInput.Some? && prompt.Answered? ==>
              run.result == ActionResult(None, Some(prompt.output.description), None)
    ensures run.promptInput.Some? && prompt.PromptThrew? ==>
              run.result == Failed(ErrorMessage(Describing, prompt.message))
  {
    var key := PlaceholderKey;
    match limiter
    case LimiterThrew(message) => Run(Failed(ErrorMessage(Describing, message)), key, None)
    case Refused => Run(Failed(TooManyRequests), key, None)
    case Admitted =>
      var issues := ExpressionIssues(expression);
      if issues != [] then
        Run(Failed(JoinWith(issues, IssueSeparator)), key, None)
      else
        match prompt
        case PromptThrew(message) => Run(Failed(ErrorMessage(Describing, message)), key, Some(expression))
        case Answered(output) => Run(ActionResult(None, Some(output.description), None), key, Some(expression))
  }
}
