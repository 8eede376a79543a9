/**
  The `CronDescriptionGenerator` page component, reduced to its state and its
  two handlers: `handleSubmit` (validate the typed expression, call the
  describe action, show what comes back) and `handleClear`. A submit is
  modelled by its settled outcome: the reply of the awaited server action is
  an input, and the submission records the expression that was sent, if any.
 */
module DescriptionGenerator {
  import opened Optional
  import opened JsText
  import opened CronShape
  import opened Actions

  /** The component's state: the typed expression, the description shown and
      the error shown (`null` is `None`). */
  datatype Form = Form(cronExpression: string, description: string, error: Option<string>)

  /** The initial state of the three `useState` hooks. */
  const Blank := Form("", "", None)

  /** How the awaited call to the describe action ended. */
  datatype ServerReply = Returned(result: ActionResult) | Threw

  /** The settled form after a submit, and the expression passed to the
      describe action (`None` when the action was not called). */
  datatype Submission = Submission(form: Form, request: Option<string>)

  const EnterExpression := "Please enter a CRON expression."
  const NeedFiveOrSixParts := "Please enter a valid CRON expression (5 or 6 parts)."
  const RequestFailed := "Failed to generate description. Please try again later."

  /** Showing a reply on a cleared form: a non-empty description wins, then a
      non-empty error, and otherwise the form stays cleared; a thrown call
      shows the page's own failure text. */
  function Display(form: Form, reply: ServerReply): (shown: Form)
    requires form.description == "" && form.error.None?
    ensures shown.cronExpression == form.cronExpression
    ensures shown.description != "" <==> reply.Returned? && Truthy(reply.result.description)
    ensures shown.description != "" ==> Some(shown.description) == reply.result.description
    ensures shown.error.Some? <==>
              reply.Threw? || (!Truthy(reply.result.description) && Truthy(reply.result.error))
    ensures shown.error.Some? ==> (reply.Threw? && shown.error == Some(RequestFailed))
                                  || (reply.Returned? && shown.error == reply.result.error)
  {
    match reply
    case Threw => form.(error := Some(RequestFailed))
    case Returned(result) =>
      if Truthy(result.description) then form.(description := result.description.value)
      else if Truthy(result.error) then form.(error := result.error)
      else form
  }

  /** `handleSubmit`: clear the outputs, refuse a blank expression, refuse one
      without 5 or 6 fields, and otherwise send the expression as typed. */
  function Submit(form: Form, reply: ServerReply): (out: Submission)
    ensures out.form.cronExpression == form.cronExpression
    // the action is called exactly for expressions with 5 or 6 fields, untrimmed
    ensures out.request.Some? <==> HasCronShape(form.cronExpression)
    ensures out.request.Some? ==> out.request.value == form.cronExpression
    // a blank expression gets the empty message, never the parts message
    ensures AllSpace(form.cronExpression) ==>
              out.form == Form(form.cronExpression, "", Some(EnterExpression))
    ensures !AllSpace(form.cronExpression) && !HasCronShape(form.cronExpression) ==>
              out.form == Form(form.cronExpression, "", Some(NeedFiveOrSixParts))
    ensures out.request.Some? ==> out.form == Display(Form(form.cronExpression, "", None), reply)
    // a description and an error are never shown together
    ensures out.form.description == "" || out.form.error.None?
  {
    var cleared := form.(description := "", error := None);
    if Trim(form.cronExpression) == "" then
      Submission(cleared.(error := Some(EnterExpression)), None)
    else if !HasCronShape(form.cronExpression) then
      Submission(cleared.(error := Some(NeedFiveOrSixParts)), None)
    else
      Submission(Display(cleared, reply), Some(form.cronExpression))
  }

  /** `handleClear`. */
  function Clear(form: Form): (cleared: Form)
    ensures cleared.cronExpression == "" && cleared.description == "" && cleared.error.None?
  {
    Blank
  }

  /** The submit button's `disabled` attribute. */
  function SubmitDisabled(isPending: bool, expression: string): (disabled: bool)
    ensures disabled <==> isPending || AllSpace(expression)
  {
    isPending || Trim(expression) == ""
  }

  /** A submit forgets what the previous one showed: only the typed expression
      and the reply decide the outcome. */
  lemma SubmitForgetsPreviousOutput(form: Form, other: Form, reply: ServerReply)
    requires form.cronExpression == other.cronExpression
    ensures Submit(form, reply) == Submit(other, reply)
  {
  }

  /** After a clear the form is back to its initial state, the submit button is
      disabled, and a submit anyway only asks for an expression. */
  lemma ClearResets(form: Form, reply: ServerReply)
    ensures Clear(form) == Blank
    ensures SubmitDisabled(false, Clear(form).cronExpression)
    ensures Submit(Clear(form), reply) == Submission(Form("", "", Some(EnterExpression)), None)
  {
  }

  /** With the button enabled, a submit either reaches the server or complains
      about the number of parts; the empty message cannot appear. */
  lemma EnabledSubmitIsNeverBlank(form: Form, reply: ServerReply)
    requires !SubmitDisabled(false, form.cronExpression)
    ensures Submit(form, reply).request.Some?
            || Submit(form, reply).form.error == Some(NeedFiveOrSixParts)
  {
  }

  /** Whatever the page sends passes the describe action's own validation: the
      server never answers "cannot be empty" to this page. */
  lemma SentExpressionsPassServerValidation(form: Form, reply: ServerReply, forwardedFor: Option<string>,
                                            prompt: PromptReply<DescribeOutput>)
    requires Submit(form, reply).request.Some?
    ensures Describe(forwardedFor, form.cronExpression, Admitted, prompt).promptInput == Some(form.cronExpression)
  {
    BlankHasNoShape(form.cronExpression);
  }

  /** End to end: a description the flow produces is what the page shows, and
      an empty one (the flow's answer for an expression it finds invalid)
      leaves the page showing neither a description nor an error. */
  lemma DescriptionReachesPage(form: Form, forwardedFor: Option<string>, output: DescribeOutput)
    requires HasCronShape(form.cronExpression)
    ensures var run := Describe(forwardedFor, form.cronExpression, Admitted, Answered(output));
            var shown := Submit(form, Returned(run.result)).form;
            && (output.description != "" ==> shown.description == output.description && shown.error.None?)
            && (output.description == "" ==> shown.description == "" && shown.error.None?)
  {
    BlankHasNoShape(form.cronExpression);
  }

  /** End to end: a refusal by the rate limiter is shown as its error text. */
  lemma RefusalReachesPage(form: Form, forwardedFor: Option<string>, prompt: PromptReply<DescribeOutput>)
    requires HasCronShape(form.cronExpression)
    ensures var run := Describe(forwardedFor, form.cronExpression, Refused, prompt);
            Submit(form, Returned(run.result)).form == Form(form.cronExpression, "", Some(TooManyRequests))
  {
  }
}
