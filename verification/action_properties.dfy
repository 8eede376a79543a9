/**
  Properties that relate several runs of the server actions: what does not
  influence a result, how the shared catch block classifies messages, and the
  field-count test at work on concrete expressions.
 */
module ActionProperties {
  import opened Optional
  import opened JsText
  import opened CronShape
  import opened Actions

  /** Both catch blocks agree on a message exactly when it is classified as a
      timeout or a quota failure; they differ only in their generic text. */
  lemma ErrorMessagesShared(message: Option<string>)
    ensures ErrorMessage(Generating, message) == ErrorMessage(Describing, message) <==>
              ErrorMessage(Generating, message) in {TimedOut, OverQuota}
  {
  }

  /** The deadline test is case-sensitive: a lower-case "deadline exceeded"
      (which has no "quota" either) gets the generic text. */
  lemma DeadlineMatchIsCaseSensitive(action: Action)
    ensures ErrorMessage(action, Some("deadline exceeded")) == GenericFailure(action)
  {
    LowerDeadlineHasNoMarker();
    LowerDeadlineHasNoQuota();
  }

  lemma LowerDeadlineHasNoMarker()
    ensures !Contains("deadline exceeded", DeadlineMarker)
  {
    MissingFirstChar("deadline exceeded", DeadlineMarker);
  }

  lemma LowerDeadlineHasNoQuota()
    ensures !Contains(ToLower("deadline exceeded"), QuotaMarker)
  {
    assert ToLower("deadline exceeded") == "deadline exceeded";
    MissingFirstChar("deadline exceeded", QuotaMarker);
  }

  /** The deadline test wins over the quota test. */
  lemma DeadlineBeatsQuota(action: Action, before: string, after: string)
    ensures ErrorMessage(action, Some(before + DeadlineMarker + after + QuotaMarker)) == TimedOut
  {
    assert before + DeadlineMarker + after + QuotaMarker == before + DeadlineMarker + (after + QuotaMarker);
    ContainsInfix(before, DeadlineMarker, after + QuotaMarker);
  }

  /** The quota test ignores case: any spelling of "quota" anywhere in the
      message selects the quota text, unless the deadline test already fired. */
  lemma QuotaMatchIgnoresCase(action: Action, before: string, word: string, after: string)
    requires ToLower(word) == QuotaMarker
    requires !Contains(before + word + after, DeadlineMarker)
    ensures ErrorMessage(action, Some(before + word + after)) == OverQuota
  {
    ContainsInfix(before, word, after);
    ContainsLowered(before + word + after, word);
  }

  /** When the generate action does not call the flow, the flow's reply cannot
      change anything about the run. */
  lemma GenerateIgnoresUncalledPrompt(forwardedFor: Option<string>, description: string, limiter: LimiterReply,
                                      prompt: PromptReply<GenerateOutput>, other: PromptReply<GenerateOutput>)
    requires Generate(forwardedFor, description, limiter, prompt).promptInput.None?
    ensures Generate(forwardedFor, description, limiter, prompt) == Generate(forwardedFor, description, limiter, other)
  {
  }

  /** Likewise for the describe action. */
  lemma DescribeIgnoresUncalledPrompt(forwardedFor: Option<string>, expression: string, limiter: LimiterReply,
                                      prompt: PromptReply<DescribeOutput>, other: PromptReply<DescribeOutput>)
    requires Describe(forwardedFor, expression, limiter, prompt).promptInput.None?
    ensures Describe(forwardedFor, expression, limiter, prompt) == Describe(forwardedFor, expression, limiter, other)
  {
  }

  /** The describe action never looks at the forwarded address nor at the
      flow's validity flag. */
  lemma DescribeIgnoresHeaderAndValidity(forwardedFor: Option<string>, otherHeader: Option<string>,
                                         expression: string, limiter: LimiterReply, description: string)
    ensures Describe(forwardedFor, expression, limiter, Answered(DescribeOutput(description, true)))
         == Describe(otherHeader, expression, limiter, Answered(DescribeOutput(description, false)))
  {
  }

  /** A description of blanks only is not rejected: the length rule is applied
      to the untrimmed text, so `" "` reaches the flow. */
  lemma BlankDescriptionReachesPrompt(forwardedFor: Option<string>, prompt: PromptReply<GenerateOutput>)
    ensures Generate(forwardedFor, " ", Admitted, prompt).promptInput == Some(" ")
  {
  }

  lemma FourFieldExpression()
    ensures !HasCronShape("0 8 * *")
  {
    var words := ["0", "8", "*", "*"];
    assert JoinWith(words, " ") == "0 8 * *";
    JoinedWordsShape(words);
  }

  lemma FiveFieldExpression()
    ensures HasCronShape("0 8 * * 1")
  {
    var words := ["0", "8", "*", "*", "1"];
    assert JoinWith(words, " ") == "0 8 * * 1";
    JoinedWordsShape(words);
  }

  lemma ThreeFieldExpression()
    ensures !HasCronShape("a b c")
  {
    var words := ["a", "b", "c"];
    assert JoinWith(words, " ") == "a b c";
    JoinedWordsShape(words);
  }

  /** The describe action has no field-count check of its own: a four-field
      expression still reaches the flow. */
  lemma DescribeSkipsFieldCount(forwardedFor: Option<string>, prompt: PromptReply<DescribeOutput>)
    ensures !HasCronShape("0 8 * *")
    ensures Describe(forwardedFor, "0 8 * *", Admitted, prompt).promptInput == Some("0 8 * *")
  {
    FourFieldExpression();
  }

  /** The generate action re-checks the flow's answer: a three-field expression
      is refused even though the flow called the schedule valid, and a
      five-field one is returned as is. */
  lemma GenerateRechecksFieldCount(forwardedFor: Option<string>, description: string)
    requires 1 <= |description| <= MaxDescriptionLength
    ensures Generate(forwardedFor, description, Admitted, Answered(GenerateOutput("a b c", true))).result
         == Failed(InvalidFormat)
    ensures Generate(forwardedFor, description, Admitted, Answered(GenerateOutput("0 8 * * 1", true))).result
         == ActionResult(Some("0 8 * * 1"), None, None)
  {
    ThreeFieldExpression();
    FiveFieldExpression();
  }
}
