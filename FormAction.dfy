/** The server action behind the create-resume form: validate the two text fields,
    call the resume generator, and shape the response record the page reacts to. */
module FormAction {
  import opened Common

  const JobDescriptionMin: nat := 50
  const UserInputMin: nat := 20

  /** The schema's two messages, written as their words' pieces joined together. */
  const JobDescriptionIssue: string := "Job description " + "must " + "be at least 50 characters."
  const UserInputIssue: string := "Your information " + "must " + "be at least 20 characters."

  const InvalidFormMessage: string := "Invalid form data."
  const SuccessMessage: string := "Resume generated successfully!"
  const EmptyOutputMessage: string := "AI failed to generate resume. Please try again."
  const UnexpectedErrorMessage: string := "An unexpected error occurred. Please try again."

  /** The two form values, as echoed back in a response's `fields`. */
  datatype Fields = Fields(jobDescription: string, userInput: string)

  /** ActionResponseState: every member but `success` is optional. */
  datatype Response = Response(
    success: bool,
    message: Option<string>,
    fields: Option<Fields>,
    issues: Option<seq<string>>,
    resume: Option<string>)

  /** What one call of the generator does: returns an output with a resume,
      returns no output at all (the flow's `output!` being null), or throws. */
  datatype GeneratorOutcome = Generated(resume: string) | NoOutput | Threw

  /** The generator, seen only through its outcome for a given input. */
  type Generator = Fields -> GeneratorOutcome

  /** The schema's two minimum-length rules. */
  predicate JobDescriptionOk(jobDescription: string)
  {
    |jobDescription| >= JobDescriptionMin
  }

  predicate UserInputOk(userInput: string)
  {
    |userInput| >= UserInputMin
  }

  /** The messages of the failing rules, flattened in the schema's field order. */
  function Issues(jobDescription: string, userInput: string): (r: seq<string>)
    ensures |r| == (if JobDescriptionOk(jobDescription) then 0 else 1) + (if UserInputOk(userInput) then 0 else 1)
    ensures r == [] <==> JobDescriptionOk(jobDescription) && UserInputOk(userInput)
    ensures JobDescriptionIssue in r <==> !JobDescriptionOk(jobDescription)
    ensures UserInputIssue in r <==> !UserInputOk(userInput)
    ensures !JobDescriptionOk(jobDescription) ==> r[0] == JobDescriptionIssue
    ensures forall m :: m in r ==> m == JobDescriptionIssue || m == UserInputIssue
  {
    (if JobDescriptionOk(jobDescription) then [] else [JobDescriptionIssue])
    + (if UserInputOk(userInput) then [] else [UserInputIssue])
  }

  predicate Valid(jobDescription: string, userInput: string)
  {
    JobDescriptionOk(jobDescription) && UserInputOk(userInput)
  }

  /** The response for a generator outcome, once validation has passed. */
  function ResponseFor(input: Fields, outcome: GeneratorOutcome): (r: Response)
    ensures r.success <==> outcome.Generated? && Truthy(outcome.resume)
    ensures r.success ==> r.resume == Some(outcome.resume) && r.fields == None
    ensures !r.success ==> r.resume == None && r.fields == Some(input)
    ensures r.issues == None
    ensures outcome.Threw? ==> r.message == Some(UnexpectedErrorMessage)
    ensures !outcome.Threw? && !r.success ==> r.message == Some(EmptyOutputMessage)
  {
    match outcome
    case Threw =>
      Response(false, Some(UnexpectedErrorMessage), Some(input), None, None)
    case Generated(resume) =>
      if Truthy(resume) then Response(true, Some(SuccessMessage), None, None, Some(resume))
      else Response(false, Some(EmptyOutputMessage), Some(input), None, None)
    case NoOutput =>
      Response(false, Some(EmptyOutputMessage), Some(input), None, None)
  }

  /** submitResumeForm: validation failure, or the generator's outcome shaped into a response. */
  function SubmitResumeForm(jobDescription: string, userInput: string, generate: Generator): (r: Response)
    ensures !Valid(jobDescription, userInput) ==>
      r == Response(false, Some(InvalidFormMessage), Some(Fields(jobDescription, userInput)),
                    Some(Issues(jobDescription, userInput)), None)
    ensures Valid(jobDescription, userInput) ==>
      r == ResponseFor(Fields(jobDescription, userInput), generate(Fields(jobDescription, userInput)))
  {
    if !Valid(jobDescription, userInput) then
      var issues := Issues(jobDescription, userInput);
      Response(false, Some(InvalidFormMessage), Some(Fields(jobDescription, userInput)),
               if |issues| > 0 then Some(issues) else None, None)
    else
      var input := Fields(jobDescription, userInput);
      ResponseFor(input, generate(input))
  }

  /** Validation passes exactly when both minimum lengths are met. */
  lemma ValidationRule(jobDescription: string, userInput: string, generate: Generator)
    ensures SubmitResumeForm(jobDescription, userInput, generate).message != Some(InvalidFormMessage)
        <==> |jobDescription| >= 50 && |userInput| >= 20
  {
  }

  /** On invalid input the generator is never consulted: any two generators give the same response. */
  lemma GeneratorNotCalledWhenInvalid(jobDescription: string, userInput: string, g1: Generator, g2: Generator)
    requires !Valid(jobDescription, userInput)
    ensures SubmitResumeForm(jobDescription, userInput, g1) == SubmitResumeForm(jobDescription, userInput, g2)
  {
  }

  /** On valid input the generator sees exactly the two form values and nothing else matters. */
  lemma GeneratorSeesFormValues(jobDescription: string, userInput: string, g1: Generator, g2: Generator)
    requires Valid(jobDescription, userInput)
    requires g1(Fields(jobDescription, userInput)) == g2(Fields(jobDescription, userInput))
    ensures SubmitResumeForm(jobDescription, userInput, g1) == SubmitResumeForm(jobDescription, userInput, g2)
  {
  }

  /** Success iff validation passes and the generator returned a non-empty resume, which is passed through. */
  lemma SuccessCharacterised(jobDescription: string, userInput: string, generate: Generator)
    ensures var r := SubmitResumeForm(jobDescription, userInput, generate);
      r.success <==> Valid(jobDescription, userInput)
                     && generate(Fields(jobDescription, userInput)).Generated?
                     && generate(Fields(jobDescription, userInput)).resume != []
    ensures var r := SubmitResumeForm(jobDescription, userInput, generate);
      r.success ==> r.resume == Some(generate(Fields(jobDescription, userInput)).resume)
                    && r.message == Some(SuccessMessage)
  {
  }

  /** No failure carries a resume, and every failure echoes both form values. */
  lemma FailuresEchoFields(jobDescription: string, userInput: string, generate: Generator)
    ensures var r := SubmitResumeForm(jobDescription, userInput, generate);
      !r.success ==> r.resume == None && r.fields == Some(Fields(jobDescription, userInput))
  {
  }

  /** The issues list is present exactly on a validation failure, and is never empty when present. */
  lemma IssuesOnlyOnValidationFailure(jobDescription: string, userInput: string, generate: Generator)
    ensures var r := SubmitResumeForm(jobDescription, userInput, generate);
      (r.issues.Some? <==> !Valid(jobDescription, userInput))
      && (r.issues.Some? ==> r.issues.value != [] && r.message == Some(InvalidFormMessage))
  {
  }
}
