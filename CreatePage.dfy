/** The create-resume page's reaction to each new action response: on success it stores the
    form values and the resume and moves on to the preview; otherwise it only shows toasts.
    The inline hints under the two text areas are predicates of the same response. */
module CreatePage {
  import opened Common
  import opened Ui
  import opened FormAction
  import RC = ResumeContext

  /** The state `useActionState` starts from, before any submission. */
  const InitialState: Response := Response(false, Some(""), None, None, None)

  const SuccessTitle: string := "Success!"
  const SuccessFallback: string := "Resume generated successfully."
  const ErrorTitle: string := "Error"
  const ValidationTitle: string := "Validation Error"

  /** The branch of the effect's if / else-if chain a response state selects. */
  datatype Reaction = Proceed(resume: string) | ShowError(message: string) | ShowIssues(issues: seq<string>) | Quiet

  /** A message the error branch toasts: present, non-empty and not the validation summary. */
  predicate ToastableMessage(state: Response)
  {
    state.message.Some? && Truthy(state.message.value) && state.message.value != InvalidFormMessage
  }

  function ReactionTo(state: Response): (r: Reaction)
    ensures r.Proceed? <==> state.success && state.resume.Some? && Truthy(state.resume.value)
    ensures r.Proceed? ==> state.resume == Some(r.resume)
    ensures r.ShowError? ==> !state.success && state.message == Some(r.message)
                             && r.message != [] && r.message != InvalidFormMessage
    ensures r.ShowIssues? ==> !state.success && state.issues == Some(r.issues) && r.issues != []
    ensures !state.success && ToastableMessage(state) ==> r == ShowError(state.message.value)
    ensures !state.success && !ToastableMessage(state) && state.issues.Some? && state.issues.value != []
      ==> r == ShowIssues(state.issues.value)
  {
    if state.success && state.resume.Some? && Truthy(state.resume.value) then
      Proceed(state.resume.value)
    else if !state.success && state.message.Some? && Truthy(state.message.value)
            && state.message.value != InvalidFormMessage then
      ShowError(state.message.value)
    else if !state.success && state.issues.Some? && |state.issues.value| > 0 then
      ShowIssues(state.issues.value)
    else
      Quiet
  }

  /** One destructive toast per validation issue, in issue order. */
  function IssueToasts(issues: seq<string>): (r: seq<Toast>)
    ensures |r| == |issues|
    ensures forall i :: 0 <= i < |issues| ==> r[i] == Toast(ValidationTitle, issues[i], true)
  {
    if issues == [] then [] else [Toast(ValidationTitle, issues[0], true)] + IssueToasts(issues[1..])
  }

  /** The toasts the effect shows for a response state: one plain toast on success, one
      destructive toast per issue or for the error message on failure, none otherwise. */
  function EffectToasts(state: Response): (t: seq<Toast>)
    ensures state.success && state.resume.Some? && Truthy(state.resume.value) ==> |t| == 1
    ensures forall x | x in t :: x.destructive <==> !state.success
    ensures t == [] <==> ReactionTo(state).Quiet?
    ensures ReactionTo(state).ShowIssues? ==>
      |t| == |state.issues.value|
      && forall i :: 0 <= i < |t| ==> t[i].description == state.issues.value[i]
  {
    match ReactionTo(state)
    case Proceed(_) =>
      [Toast(SuccessTitle,
             if state.message.Some? && Truthy(state.message.value) then state.message.value else SuccessFallback,
             false)]
    case ShowError(message) => [Toast(ErrorTitle, message, true)]
    case ShowIssues(issues) => IssueToasts(issues)
    case Quiet => []
  }

  /** The navigation the effect performs. */
  function EffectNav(state: Response): (n: Option<Nav>)
    ensures n.Some? <==> state.success && state.resume.Some? && Truthy(state.resume.value)
    ensures n.Some? ==> n.value == Push(PreviewResume)
  {
    if ReactionTo(state).Proceed? then Some(Push(PreviewResume)) else None
  }

  /** The session store after the effect, given the values still in the form's two text areas. */
  function EffectStore(state: Response, formJobDescription: string, formUserInput: string, d: RC.ResumeData)
    : (r: RC.ResumeData)
    ensures r.isPaid == d.isPaid
    ensures !(state.success && state.resume.Some? && Truthy(state.resume.value)) ==> r == d
    ensures state.success && state.resume.Some? && Truthy(state.resume.value) ==>
      r == RC.ResumeData(formJobDescription, formUserInput, state.resume.value, d.isPaid)
  {
    match ReactionTo(state)
    case Proceed(resume) =>
      d.(jobDescription := formJobDescription, userInput := formUserInput, generatedResumeHtml := resume)
    case _ => d
  }

  /** The `forEach` over the issues, each iteration showing one toast. */
  method ToastEachIssue(issues: seq<string>) returns (toasts: seq<Toast>)
    ensures |toasts| == |issues|
    ensures forall i :: 0 <= i < |issues| ==> toasts[i].description == issues[i] && toasts[i].destructive
    ensures toasts == IssueToasts(issues)
  {
    toasts := [];
    for i := 0 to |issues|
      invariant toasts == IssueToasts(issues[..i])
    {
      toasts := toasts + [Toast(ValidationTitle, issues[i], true)];
      assert issues[..i + 1] == issues[..i] + [issues[i]];
      IssueToastsAppend(issues[..i], issues[i]);
    }
    assert issues[..|issues|] == issues;
  }

  lemma {:induction false} IssueToastsAppend(issues: seq<string>, issue: string)
    ensures IssueToasts(issues + [issue]) == IssueToasts(issues) + [Toast(ValidationTitle, issue, true)]
  {
    if issues != [] {
      assert (issues + [issue])[1..] == issues[1..] + [issue];
      IssueToastsAppend(issues[1..], issue);
    }
  }

  /** The `useEffect` body: context writes and navigation on success, toasts otherwise. */
  method OnActionState(state: Response, formJobDescription: string, formUserInput: string, store: RC.ResumeStore)
    returns (toasts: seq<Toast>, nav: Option<Nav>)
    modifies store
    ensures toasts == EffectToasts(state)
    ensures nav == EffectNav(state)
    ensures store.Data() == EffectStore(state, formJobDescription, formUserInput, old(store.Data()))
  {
    match ReactionTo(state)
    case Proceed(resume) =>
      toasts := [Toast(SuccessTitle,
                       if state.message.Some? && Truthy(state.message.value) then state.message.value else SuccessFallback,
                       false)];
      store.SetJobDescription(formJobDescription);
      store.SetUserInput(formUserInput);
      store.SetGeneratedResumeHtml(resume);
      nav := Some(Push(PreviewResume));
    case ShowError(message) =>
      toasts := [Toast(ErrorTitle, message, true)];
      nav := None;
    case ShowIssues(issues) =>
      toasts := ToastEachIssue(issues);
      nav := None;
    case Quiet =>
      toasts := [];
      nav := None;
  }

  /** The inline hint under the job description. */
  predicate JobHintShown(state: Response)
    ensures JobHintShown(state) ==> state.fields.None? && state.issues.Some? && state.issues.value != []
  {
    state.issues.Some? && state.fields.None?
    && exists i | 0 <= i < |state.issues.value| :: Contains(ToLower(state.issues.value[i]), "job")
  }

  /** The inline hint under the personal information. */
  predicate UserHintShown(state: Response)
    ensures UserHintShown(state) ==> state.fields.None? && state.issues.Some? && state.issues.value != []
  {
    state.issues.Some? && state.fields.None?
    && exists i | 0 <= i < |state.issues.value| ::
         Contains(ToLower(state.issues.value[i]), "your information")
         || Contains(ToLower(state.issues.value[i]), "user input")
  }

  // ----- Properties -----

  /** Before any submission the effect does nothing at all. */
  lemma InitialStateIsQuiet(formJobDescription: string, formUserInput: string, d: RC.ResumeData)
    ensures EffectToasts(InitialState) == []
    ensures EffectNav(InitialState) == None
    ensures EffectStore(InitialState, formJobDescription, formUserInput, d) == d
  {
  }

  /** A state that is not a success never touches the session store nor navigates. */
  lemma FailureLeavesStore(state: Response, formJobDescription: string, formUserInput: string, d: RC.ResumeData)
    requires !state.success
    ensures EffectStore(state, formJobDescription, formUserInput, d) == d
    ensures EffectNav(state) == None
  {
  }

  /** A failure with its own message shows exactly that message once; issues are not toasted. */
  lemma ErrorMessageToastedOnce(state: Response, message: string)
    requires !state.success && state.message == Some(message)
    requires message != [] && message != InvalidFormMessage
    ensures EffectToasts(state) == [Toast(ErrorTitle, message, true)]
  {
  }

  /** A validation failure from the action shows one toast per failing rule, in schema order. */
  lemma ValidationFailureToasts(jobDescription: string, userInput: string, generate: Generator)
    requires !Valid(jobDescription, userInput)
    ensures EffectToasts(SubmitResumeForm(jobDescription, userInput, generate))
         == IssueToasts(Issues(jobDescription, userInput))
    ensures |EffectToasts(SubmitResumeForm(jobDescription, userInput, generate))| in {1, 2}
  {
  }

  /** A generator failure or exception from the action shows one error toast and changes nothing. */
  lemma GenerationFailureToast(jobDescription: string, userInput: string, generate: Generator, d: RC.ResumeData)
    requires Valid(jobDescription, userInput)
    requires !SubmitResumeForm(jobDescription, userInput, generate).success
    ensures var r := SubmitResumeForm(jobDescription, userInput, generate);
      EffectToasts(r) == [Toast(ErrorTitle, r.message.value, true)]
      && EffectStore(r, jobDescription, userInput, d) == d
      && EffectNav(r) == None
  {
  }

  /** A successful submission stores the form values and the generated resume, then pushes the preview. */
  lemma SuccessStoresResume(jobDescription: string, userInput: string, generate: Generator, resume: string,
                            d: RC.ResumeData)
    requires Valid(jobDescription, userInput)
    requires generate(Fields(jobDescription, userInput)) == Generated(resume) && resume != []
    ensures var r := SubmitResumeForm(jobDescription, userInput, generate);
      EffectStore(r, jobDescription, userInput, d)
        == d.(jobDescription := jobDescription, userInput := userInput, generatedResumeHtml := resume)
      && EffectNav(r) == Some(Push(PreviewResume))
      && EffectToasts(r) == [Toast(SuccessTitle, SuccessMessage, false)]
  {
  }

  /** Neither inline hint can appear for a state the action produced, nor for the initial state:
      every state that carries issues also echoes both fields. */
  lemma HintsNeverShownForActionStates(jobDescription: string, userInput: string, generate: Generator)
    ensures !JobHintShown(SubmitResumeForm(jobDescription, userInput, generate))
    ensures !UserHintShown(SubmitResumeForm(jobDescription, userInput, generate))
    ensures !JobHintShown(InitialState) && !UserHintShown(InitialState)
  {
  }

  /** An issue starting with `prefix` raises a hint looking for the lower-cased prefix. */
  lemma {:induction false} LowerContainsPrefix(issue: string, prefix: string)
    requires |prefix| <= |issue| && issue[..|prefix|] == prefix
    ensures Contains(ToLower(issue), ToLower(prefix))
  {
    assert ToLower(issue)[..|prefix|] == ToLower(prefix);
    assert OccursAt(ToLower(issue), ToLower(prefix), 0);
  }

  lemma MentionsLowered(issue: string, prefix: string, needle: string)
    requires |prefix| <= |issue| && issue[..|prefix|] == prefix && ToLower(prefix) == needle
    ensures Contains(ToLower(issue), needle)
  {
    LowerContainsPrefix(issue, prefix);
  }

  lemma UserIssueMentionsYourInformation(issue: string)
    requires issue == UserInputIssue
    ensures Contains(ToLower(issue), "your information")
  {
    UserIssuePrefix(issue);
    LowerYourInformation();
    MentionsLowered(issue, "Your information", "your information");
  }

  lemma LowerYourInformation()
    ensures ToLower("Your information") == "your information"
  {
  }

  lemma JobIssuePrefix(issue: string)
    requires issue == JobDescriptionIssue
    ensures |issue| >= 3 && issue[..3] == "Job"
  {
  }

  lemma UserIssuePrefix(issue: string)
    requires issue == UserInputIssue
    ensures |issue| >= 16 && issue[..16] == "Your information"
  {
  }

  /** Were the fields not echoed, the job description's schema message would raise its hint. */
  lemma JobHintMatchesSchemaMessage(state: Response)
    requires state.fields.None? && state.issues.Some? && JobDescriptionIssue in state.issues.value
    ensures JobHintShown(state)
  {
    var i :| 0 <= i < |state.issues.value| && state.issues.value[i] == JobDescriptionIssue;
    JobIssuePrefix(state.issues.value[i]);
    MentionsLowered(state.issues.value[i], "Job", "job");
  }

  /** Were the fields not echoed, the personal information's schema message would raise its hint. */
  lemma UserHintMatchesSchemaMessage(state: Response)
    requires state.fields.None? && state.issues.Some? && UserInputIssue in state.issues.value
    ensures UserHintShown(state)
  {
    var i :| 0 <= i < |state.issues.value| && state.issues.value[i] == UserInputIssue;
    UserIssueMentionsYourInformation(state.issues.value[i]);
  }

  // ----- The hints as evidently intended -----

  /** The job hint without the test on `fields`: shown when some issue mentions the job. */
  predicate JobHintIntended(state: Response)
  {
    state.issues.Some?
    && exists i | 0 <= i < |state.issues.value| :: Contains(ToLower(state.issues.value[i]), "job")
  }

  /** The personal-information hint without the test on `fields`. */
  predicate UserHintIntended(state: Response)
  {
    state.issues.Some?
    && exists i | 0 <= i < |state.issues.value| ::
         Contains(ToLower(state.issues.value[i]), "your information")
         || Contains(ToLower(state.issues.value[i]), "user input")
  }

  /** A 49-character job description is refused with the job message, yet the hint under
      the field stays hidden; the intended hint would show. */
  lemma ShortJobDescriptionHintHidden(jobDescription: string, userInput: string, generate: Generator)
    requires |jobDescription| == JobDescriptionMin - 1
    ensures var r := SubmitResumeForm(jobDescription, userInput, generate);
      !JobHintShown(r) && JobHintIntended(r)
  {
    JobHintIntendedIffTooShort(jobDescription, userInput, generate);
  }

  /** A 19-character personal text is refused with its message, yet the hint under the
      field stays hidden; the intended hint would show. */
  lemma ShortUserInputHintHidden(jobDescription: string, userInput: string, generate: Generator)
    requires |userInput| == UserInputMin - 1
    ensures var r := SubmitResumeForm(jobDescription, userInput, generate);
      !UserHintShown(r) && UserHintIntended(r)
  {
    UserHintIntendedIffTooShort(jobDescription, userInput, generate);
  }

  /** The intended job hint shows exactly when the job description is too short. */
  lemma JobHintIntendedIffTooShort(jobDescription: string, userInput: string, generate: Generator)
    ensures JobHintIntended(SubmitResumeForm(jobDescription, userInput, generate)) <==> !JobDescriptionOk(jobDescription)
  {
    var r := SubmitResumeForm(jobDescription, userInput, generate);
    if !JobDescriptionOk(jobDescription) {
      JobHintMatchesSchemaMessage(r.(fields := None));
    } else if !Valid(jobDescription, userInput) {
      var issues := Issues(jobDescription, userInput);
      assert issues == [UserInputIssue];
      UserIssueLacksJob();
    }
  }

  /** The intended personal-information hint shows exactly when that text is too short. */
  lemma UserHintIntendedIffTooShort(jobDescription: string, userInput: string, generate: Generator)
    ensures UserHintIntended(SubmitResumeForm(jobDescription, userInput, generate)) <==> !UserInputOk(userInput)
  {
    var r := SubmitResumeForm(jobDescription, userInput, generate);
    if !UserInputOk(userInput) {
      UserHintMatchesSchemaMessage(r.(fields := None));
    } else if !Valid(jobDescription, userInput) {
      var issues := Issues(jobDescription, userInput);
      assert issues == [JobDescriptionIssue];
      JobIssueLacksYourInformation();
      JobIssueLacksUserInput();
    }
  }

  /** Where a needle occurs in a lower-cased text, the text's characters lower-case to the needle's. */
  lemma Found(s: string, needle: string) returns (i: int)
    requires Contains(ToLower(s), needle)
    ensures 0 <= i <= |s| - |needle|
    ensures forall k :: 0 <= k < |needle| ==> LowerChar(s[i + k]) == needle[k]
  {
    i :| 0 <= i <= |ToLower(s)| - |needle| && OccursAt(ToLower(s), needle, i);
  }

  lemma UserIssueLacksJob()
    ensures !Contains(ToLower(UserInputIssue), "job")
  {
    if Contains(ToLower(UserInputIssue), "job") {
      var i := Found(UserInputIssue, "job");
      assert LowerChar(UserInputIssue[i + 0]) == "job"[0] == 'j';
      UserIssueHasNoJ(i);
    }
  }

  lemma UserIssueHasNoJ(i: int)
    requires 0 <= i < |UserInputIssue|
    ensures UserInputIssue[i] != 'j' && UserInputIssue[i] != 'J'
  {
    NoJInUserIssueHead();
    NoJInMust();
    NoJInUserIssueTail();
    if i < 17 {
      assert UserInputIssue[i] in "Your information ";
    } else if i < 22 {
      assert UserInputIssue[i] in "must ";
    } else {
      assert UserInputIssue[i] in "be at least 20 characters.";
    }
  }

  // The membership facts below are stated one short piece at a time, which keeps each
  // character comparison small for the solver.

  lemma NoJInUserIssueHead()
    ensures 'j' !in "Your information " && 'J' !in "Your information "
  {
  }

  lemma NoJInMust()
    ensures 'j' !in "must " && 'J' !in "must "
  {
  }

  lemma NoJInUserIssueTail()
    ensures 'j' !in "be at least 20 characters." && 'J' !in "be at least 20 characters."
  {
  }

  lemma JobIssueLacksYourInformation()
    ensures !Contains(ToLower(JobDescriptionIssue), "your information")
  {
    if Contains(ToLower(JobDescriptionIssue), "your information") {
      var i := Found(JobDescriptionIssue, "your information");
      assert LowerChar(JobDescriptionIssue[i + 0]) == "your information"[0] == 'y';
      JobIssueHasNoY(i);
    }
  }

  lemma JobIssueHasNoY(i: int)
    requires 0 <= i < |JobDescriptionIssue|
    ensures JobDescriptionIssue[i] != 'y' && JobDescriptionIssue[i] != 'Y'
  {
    NoYInJobIssueHead();
    NoYInMust();
    NoYInJobIssueTail();
    if i < 16 {
      assert JobDescriptionIssue[i] in "Job description ";
    } else if i < 21 {
      assert JobDescriptionIssue[i] in "must ";
    } else {
      assert JobDescriptionIssue[i] in "be at least 50 characters.";
    }
  }

  lemma JobIssueLacksUserInput()
    ensures !Contains(ToLower(JobDescriptionIssue), "user input")
  {
    if Contains(ToLower(JobDescriptionIssue), "user input") {
      var i := Found(JobDescriptionIssue, "user input");
      assert LowerChar(JobDescriptionIssue[i + 0]) == "user input"[0] == 'u';
      assert LowerChar(JobDescriptionIssue[i + 2]) == "user input"[2] == 'e';
      JobIssueOnlyU(i);
    }
  }

  /** The job message's only `u` is followed by `st`. */
  lemma JobIssueOnlyU(i: int)
    requires 0 <= i < |JobDescriptionIssue| - 2
    ensures LowerChar(JobDescriptionIssue[i]) == 'u' ==> i == 17 && LowerChar(JobDescriptionIssue[i + 2]) == 't'
  {
    NoUInJobIssueHead();
    NoUInJobIssueTail();
    if i < 16 {
      assert JobDescriptionIssue[i] in "Job description ";
    } else if i < 21 {
      assert JobDescriptionIssue[i] == "must "[i - 16];
    } else {
      assert JobDescriptionIssue[i] in "be at least 50 characters.";
    }
  }

  lemma NoYInJobIssueHead()
    ensures 'y' !in "Job description " && 'Y' !in "Job description "
  {
  }

  lemma NoYInMust()
    ensures 'y' !in "must " && 'Y' !in "must "
  {
  }

  lemma NoYInJobIssueTail()
    ensures 'y' !in "be at least 50 characters." && 'Y' !in "be at least 50 characters."
  {
  }

  lemma NoUInJobIssueHead()
    ensures 'u' !in "Job description " && 'U' !in "Job description "
  {
  }

  lemma NoUInJobIssueTail()
    ensures 'u' !in "be at least 50 characters." && 'U' !in "be at least 50 characters."
  {
  }
}
