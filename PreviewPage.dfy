/** The locked preview: its two redirect effects and what it renders. */
module PreviewPage {
  import opened Common
  import opened Ui
  import RC = ResumeContext

  /** What the page renders. */
  datatype View =
    | Placeholder(link: Route)
    | LockedPreview(markup: string, unlockLink: Route)

  /** The navigations the two effects perform after a render with these context values,
      first effect first. */
  function Redirects(d: RC.ResumeData): (navs: seq<Nav>)
    ensures |navs| <= 1
    ensures navs == [Replace(CreateResume)] <==> !Truthy(d.generatedResumeHtml) && !d.isPaid
    ensures navs == [Replace(DownloadResume)] <==> Truthy(d.generatedResumeHtml) && d.isPaid
    ensures navs == [] <==> Truthy(d.generatedResumeHtml) != d.isPaid
  {
    var first := if !Truthy(d.generatedResumeHtml) && !d.isPaid then [Replace(CreateResume)] else [];
    var second := if d.isPaid && Truthy(d.generatedResumeHtml) then [Replace(DownloadResume)] else [];
    assert first == [] || second == [];
    assert [Replace(CreateResume)][0] != [Replace(DownloadResume)][0];
    first + second
  }

  function Render(d: RC.ResumeData): (v: View)
    ensures v.LockedPreview? <==> Truthy(d.generatedResumeHtml)
    ensures v.LockedPreview? ==> v.markup == d.generatedResumeHtml && v.unlockLink == Payment
    ensures v.Placeholder? ==> v.link == CreateResume
  {
    if !Truthy(d.generatedResumeHtml) then Placeholder(CreateResume)
    else LockedPreview(d.generatedResumeHtml, Payment)
  }

  /** The page never redirects to itself, and it stays exactly when it shows a resume that is
      still locked, or when a paid session has lost its resume. */
  lemma StaysOnlyWhenLockedOrOrphaned(d: RC.ResumeData)
    ensures forall n | n in Redirects(d) :: n.to != PreviewResume
    ensures Redirects(d) == [] <==>
      (Render(d).LockedPreview? && !d.isPaid) || (Render(d).Placeholder? && d.isPaid)
  {
  }
}
