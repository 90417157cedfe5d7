/** The session store shared by every page: four pieces of state with one setter each,
    and a reset that puts all four back to their initial values. */
module ResumeContext {
  import opened Common

  /** A snapshot of the four state fields (ResumeData). */
  datatype ResumeData = ResumeData(
    jobDescription: string,
    userInput: string,
    generatedResumeHtml: string,
    isPaid: bool)

  /** The provider's initial state. */
  const Initial: ResumeData := ResumeData("", "", "", false)

  const OutsideProviderError: string := "useResumeContext must be used within a ResumeProvider"

  /** The value of a snapshot after resetContext, whatever it was before. */
  function Reset(d: ResumeData): (r: ResumeData)
    ensures r.jobDescription == "" && r.userInput == "" && r.generatedResumeHtml == "" && !r.isPaid
  {
    Initial
  }

  lemma ResetIdempotent(d: ResumeData)
    ensures Reset(Reset(d)) == Reset(d)
    ensures Reset(d) == Reset(Initial)
  {
  }

  /** The ResumeProvider's state: one mutable field per `useState`. */
  class ResumeStore {
    var jobDescription: string
    var userInput: string
    var generatedResumeHtml: string
    var isPaid: bool

    function Data(): (d: ResumeData)
      reads this
      ensures d.isPaid == isPaid && d.generatedResumeHtml == generatedResumeHtml
    {
      ResumeData(jobDescription, userInput, generatedResumeHtml, isPaid)
    }

    constructor ()
      ensures Data() == Initial
    {
      jobDescription := "";
      userInput := "";
      generatedResumeHtml := "";
      isPaid := false;
    }

    method SetJobDescription(desc: string)
      modifies this
      ensures Data() == old(Data()).(jobDescription := desc)
    {
      jobDescription := desc;
    }

    method SetUserInput(input: string)
      modifies this
      ensures Data() == old(Data()).(userInput := input)
    {
      userInput := input;
    }

    method SetGeneratedResumeHtml(html: string)
      modifies this
      ensures Data() == old(Data()).(generatedResumeHtml := html)
    {
      generatedResumeHtml := html;
    }

    method SetIsPaid(paid: bool)
      modifies this
      ensures Data() == old(Data()).(isPaid := paid)
    {
      isPaid := paid;
    }

    /** resetContext: the four setters called with the initial values, in order. */
    method ResetContext()
      modifies this
      ensures Data() == Reset(old(Data()))
    {
      SetJobDescription(Initial.jobDescription);
      SetUserInput(Initial.userInput);
      SetGeneratedResumeHtml(Initial.generatedResumeHtml);
      SetIsPaid(Initial.isPaid);
    }
  }

  /** useResumeContext: the nearest provider's store, or an error outside any provider. */
  function UseResumeContext(provider: Option<ResumeStore>): (r: Result)
    ensures r.Failure? <==> provider.None?
    ensures r.Failure? ==> r.error == OutsideProviderError
    ensures r.Success? ==> provider == Some(r.store)
  {
    match provider
    case None => Failure(OutsideProviderError)
    case Some(store) => Success(store)
  }

  datatype Result = Success(store: ResumeStore) | Failure(error: string)
}
