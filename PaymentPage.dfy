/** The free-unlock page: its redirect effect, what it renders, and the unlock button whose
    handler marks the session as paid after a one-second timer. */
module PaymentPage {
  import opened Common
  import opened Ui
  import RC = ResumeContext

  const UnlockedToast: Toast := Toast("Resume Unlocked!", "Your resume is now ready for download.", false)
  const UnlockLabel: string := "Get Free Resume & Download"
  const UnlockingLabel: string := "Unlocking..."

  /** What the page renders. */
  datatype View =
    | Redirecting
    | UnlockOffer(buttonDisabled: bool, buttonLabel: string)

  /** The navigations the effect performs, in order; when both fire, the second replace wins. */
  function Redirects(d: RC.ResumeData): (navs: seq<Nav>)
    ensures Replace(CreateResume) in navs <==> !Truthy(d.generatedResumeHtml)
    ensures Replace(DownloadResume) in navs <==> d.isPaid
    ensures forall n | n in navs :: n.Replace? && n.to in {CreateResume, DownloadResume}
    ensures d.isPaid ==> navs != [] && navs[|navs| - 1] == Replace(DownloadResume)
    ensures |navs| == (if !Truthy(d.generatedResumeHtml) then 1 else 0) + (if d.isPaid then 1 else 0)
    ensures !Truthy(d.generatedResumeHtml) ==> navs[0] == Replace(CreateResume)
  {
    (if !Truthy(d.generatedResumeHtml) then [Replace(CreateResume)] else [])
    + (if d.isPaid then [Replace(DownloadResume)] else [])
  }

  function Render(d: RC.ResumeData, isLoading: bool): (v: View)
    ensures v.UnlockOffer? <==> Truthy(d.generatedResumeHtml) && !d.isPaid
    ensures v.UnlockOffer? ==> (v.buttonDisabled <==> isLoading)
    ensures v.UnlockOffer? ==> v.buttonLabel == if isLoading then UnlockingLabel else UnlockLabel
  {
    if !Truthy(d.generatedResumeHtml) || d.isPaid then Redirecting
    else UnlockOffer(isLoading, if isLoading then UnlockingLabel else UnlockLabel)
  }

  /** The page offers the unlock exactly when its effect does not navigate away. */
  lemma OfferIffNoRedirect(d: RC.ResumeData, isLoading: bool)
    ensures Render(d, isLoading).UnlockOffer? <==> Redirects(d) == []
  {
  }

  /** The page's own state next to the shared session store. `pendingTimers` counts the
      unlock timers scheduled and not yet fired. */
  class PaymentPage {
    var isLoading: bool
    var pendingTimers: nat
    const store: RC.ResumeStore

    /** While an unlock is in flight the button is disabled, so at most one timer is pending. */
    predicate Valid()
      reads this
    {
      pendingTimers == if isLoading then 1 else 0
    }

    constructor (store: RC.ResumeStore)
      ensures this.store == store && !isLoading && pendingTimers == 0
      ensures Valid()
    {
      this.store := store;
      isLoading := false;
      pendingTimers := 0;
    }

    /** A click on the unlock button: handleFreeUnlock runs only when the button is enabled. */
    method ClickUnlock()
      requires Valid()
      modifies this
      ensures Valid()
      ensures isLoading
      ensures pendingTimers == old(pendingTimers) + (if old(isLoading) then 0 else 1)
    {
      if !isLoading {
        HandleFreeUnlock();
      }
    }

    /** handleFreeUnlock up to the timer: the loading flag is set and the timer scheduled. */
    method HandleFreeUnlock()
      modifies this
      ensures isLoading && pendingTimers == old(pendingTimers) + 1
    {
      isLoading := true;
      pendingTimers := pendingTimers + 1;
    }

    /** The timer's callback: the session becomes paid, loading ends, a toast is shown and
        the download page is pushed. */
    method UnlockTimerFired() returns (toast: Toast, nav: Nav)
      requires Valid() && pendingTimers > 0
      modifies this, store
      ensures Valid()
      ensures store.Data() == old(store.Data()).(isPaid := true)
      ensures !isLoading && pendingTimers == old(pendingTimers) - 1
      ensures toast == UnlockedToast && nav == Push(DownloadResume)
    {
      pendingTimers := pendingTimers - 1;
      store.SetIsPaid(true);
      isLoading := false;
      toast := UnlockedToast;
      nav := Push(DownloadResume);
    }
  }
}
