/** The wizard as a whole: the page guards taken together as a state machine over the session
    store, one complete session driven through every page's handlers, and the PDF bytes
    travelling from the server action to the saved file. */
module SessionFlow {
  import opened Common
  import opened Ui
  import opened FormAction
  import RC = ResumeContext
  import CreatePage
  import PreviewPage
  import PaymentPage
  import DownloadPage
  import PdfAction
  import Base64
  import ExportDocument

  // ----- The guards as a state machine -----

  /** Where the last of a list of navigations leads, if any. */
  function LastTarget(navs: seq<Nav>): Option<Route>
  {
    if navs == [] then None else Some(navs[|navs| - 1].to)
  }

  /** Where a page's redirect effects send the visitor for these session values; the home
      and create pages have none. When the payment page issues two replaces, the later wins. */
  function Redirect(page: Route, d: RC.ResumeData): (r: Option<Route>)
    ensures r != Some(page)
    ensures r.Some? ==> page in {PreviewResume, Payment, DownloadResume}
  {
    match page
    case Home => None
    case CreateResume => None
    case PreviewResume => LastTarget(PreviewPage.Redirects(d))
    case Payment => LastTarget(PaymentPage.Redirects(d))
    case DownloadResume =>
      var nav := DownloadPage.AccessCheck(d).nav;
      if nav.None? then None else Some(nav.value.to)
  }

  /** The page shown after following one redirect. */
  function Hop(page: Route, d: RC.ResumeData): Route
  {
    match Redirect(page, d)
    case None => page
    case Some(next) => next
  }

  /** The page a visitor ends on. */
  function Landing(page: Route, d: RC.ResumeData): Route
  {
    Hop(Hop(page, d), d)
  }

  /** No redirect loops: from any page, whatever the session, two hops reach a page that
      does not redirect. */
  lemma SettlesWithinTwoHops(page: Route, d: RC.ResumeData)
    ensures Redirect(Landing(page, d), d).None?
  {
  }

  /** The gate: a visitor lands on the download page exactly when the session is unlocked
      and holds a resume (and they came through the wizard's later pages), and the download
      options are then rendered. */
  lemma DownloadOnlyWhenUnlocked(page: Route, d: RC.ResumeData)
    ensures Landing(page, d) == DownloadResume <==>
      d.isPaid && Truthy(d.generatedResumeHtml) && page in {PreviewResume, Payment, DownloadResume}
    ensures Landing(page, d) == DownloadResume ==> DownloadPage.Render(d, false).DownloadOptions?
  {
  }

  /** The gate is one-shot: an unlocked session never lands on the payment page. */
  lemma UnlockedSkipsPayment(page: Route, d: RC.ResumeData)
    requires d.isPaid
    ensures Landing(page, d) != Payment
  {
  }

  /** Without a resume and without an unlock, every wizard page leads back to the creator. */
  lemma EmptySessionLandsOnCreator(page: Route, d: RC.ResumeData)
    requires !d.isPaid && !Truthy(d.generatedResumeHtml) && page != Home
    ensures Landing(page, d) == CreateResume
  {
  }

  // ----- The PDF bytes from server to client -----

  /** What the server reads from the PDF file is exactly what the browser saves. */
  lemma PdfReachesClient(bytes: seq<byte>, fileName: string, error: Option<string>)
    requires bytes != [] && fileName != []
    ensures DownloadPage.Outcome(DownloadPage.Replied(
              PdfAction.PdfResponse(true, Some(Base64.Encode(bytes)), error, Some(fileName))))
         == DownloadPage.PdfSaved(DownloadPage.BinaryFile(fileName, "application/pdf", bytes))
  {
    var o := DownloadPage.Outcome(DownloadPage.Replied(
               PdfAction.PdfResponse(true, Some(Base64.Encode(bytes)), error, Some(fileName))));
    Base64.AtobEncode(bytes);
    DownloadPage.BinaryStringInjective(o.file.bytes, bytes);
  }

  /** A successful conversion of a non-empty PDF is saved under the requested name. */
  lemma ServerSuccessSaved(env: PdfAction.Environment, fileName: string, htmlPath: string, pdfPath: string,
                           pdfWasThere: bool)
    requires htmlPath != pdfPath && fileName != []
    requires PdfAction.ResponseFor(env, fileName, htmlPath, pdfPath, pdfWasThere).success
    requires env.read.ReadBytes? && env.read.bytes != []
    ensures DownloadPage.Outcome(DownloadPage.Replied(PdfAction.ResponseFor(env, fileName, htmlPath, pdfPath, pdfWasThere)))
         == DownloadPage.PdfSaved(DownloadPage.BinaryFile(fileName, "application/pdf", env.read.bytes))
  {
    PdfAction.SuccessCharacterised(env, fileName, htmlPath, pdfPath, pdfWasThere);
    PdfReachesClient(env.read.bytes, fileName, None);
  }

  /** Every failure the server reports reaches the visitor verbatim, in a destructive toast. */
  lemma ServerFailureShown(env: PdfAction.Environment, fileName: string, htmlPath: string, pdfPath: string,
                           pdfWasThere: bool)
    requires htmlPath != pdfPath
    requires !PdfAction.ResponseFor(env, fileName, htmlPath, pdfPath, pdfWasThere).success
    ensures var r := PdfAction.ResponseFor(env, fileName, htmlPath, pdfPath, pdfWasThere);
      DownloadPage.Outcome(DownloadPage.Replied(r)) == DownloadPage.PdfFailed(r.error.value)
      && DownloadPage.OutcomeToast(DownloadPage.PdfFailed(r.error.value))
         == Toast(DownloadPage.PdfFailedTitle, r.error.value, true)
  {
  }

  /** An empty PDF encodes to the empty string, which the client treats as missing data and
      reports with its generic failure text. */
  lemma EmptyPdfShownAsFailure(env: PdfAction.Environment, fileName: string, htmlPath: string, pdfPath: string,
                               pdfWasThere: bool)
    requires htmlPath != pdfPath
    requires PdfAction.ResponseFor(env, fileName, htmlPath, pdfPath, pdfWasThere).success
    requires env.read == PdfAction.ReadBytes([])
    ensures DownloadPage.Outcome(DownloadPage.Replied(PdfAction.ResponseFor(env, fileName, htmlPath, pdfPath, pdfWasThere)))
         == DownloadPage.PdfFailed(DownloadPage.PdfFailedFallback)
  {
    PdfAction.SuccessCharacterised(env, fileName, htmlPath, pdfPath, pdfWasThere);
  }

  // ----- Scenarios -----

  /** A job description one character short is refused before generation; nothing changes. */
  lemma ShortJobDescriptionRefused(jobDescription: string, userInput: string, generate: Generator, d: RC.ResumeData)
    requires |jobDescription| == JobDescriptionMin - 1
    ensures var r := SubmitResumeForm(jobDescription, userInput, generate);
      !r.success && r.issues.Some? && JobDescriptionIssue in r.issues.value
      && CreatePage.EffectStore(r, jobDescription, userInput, d) == d && CreatePage.EffectNav(r).None?
  {
  }

  /** A throwing generator is reported once and leaves a fresh session without a resume. */
  lemma GeneratorThrowsKeepsSessionEmpty(jobDescription: string, userInput: string, generate: Generator)
    requires Valid(jobDescription, userInput) && generate(Fields(jobDescription, userInput)) == Threw
    ensures var r := SubmitResumeForm(jobDescription, userInput, generate);
      CreatePage.EffectStore(r, jobDescription, userInput, RC.Initial).generatedResumeHtml == ""
      && CreatePage.EffectToasts(r) == [Toast(CreatePage.ErrorTitle, UnexpectedErrorMessage, true)]
  {
  }

  /** One whole session: submit, preview, unlock, download both formats, start over. The PDF
      server action runs on a file system holding no other files and with no faults. */
  method CompleteSession(jobDescription: string, userInput: string, generate: Generator, resume: string,
                         styles: string, tempDir: string, uniqueId: nat, pdf: seq<byte>)
    returns (navs: seq<Nav>, htmlFile: Option<DownloadPage.SavedFile>, pdfFile: Option<DownloadPage.SavedFile>,
             leftovers: set<string>, final: RC.ResumeData)
    requires Valid(jobDescription, userInput)
    requires generate(Fields(jobDescription, userInput)) == Generated(resume) && resume != []
    requires pdf != []
    ensures navs == [Push(PreviewResume), Push(DownloadResume), Push(Home)]
    ensures htmlFile == Some(DownloadPage.TextFile(DownloadPage.HtmlFileName, "text/html",
                                                   ExportDocument.HtmlDocument(styles, resume)))
    ensures pdfFile == Some(DownloadPage.BinaryFile(DownloadPage.PdfFileName, "application/pdf", pdf))
    ensures leftovers == {}
    ensures final == RC.Initial
  {
    var store, wizardNavs := SubmitAndUnlock(jobDescription, userInput, generate, resume);
    var download;
    download, htmlFile, pdfFile, leftovers := DownloadBoth(store, styles, tempDir, uniqueId, pdf);

    // start over
    var homeNav := download.StartOver();
    navs := wizardNavs + [homeNav];
    final := store.Data();
  }

  /** The create, preview and payment pages of a session: the resume is stored, both later
      pages let the visitor stay, and the unlock marks the session as paid. */
  method SubmitAndUnlock(jobDescription: string, userInput: string, generate: Generator, resume: string)
    returns (store: RC.ResumeStore, navs: seq<Nav>)
    requires Valid(jobDescription, userInput)
    requires generate(Fields(jobDescription, userInput)) == Generated(resume) && resume != []
    ensures fresh(store)
    ensures store.Data() == RC.ResumeData(jobDescription, userInput, resume, true)
    ensures navs == [Push(PreviewResume), Push(DownloadResume)]
    ensures Redirect(PreviewResume, RC.ResumeData(jobDescription, userInput, resume, false)).None?
    ensures Redirect(Payment, RC.ResumeData(jobDescription, userInput, resume, false)).None?
  {
    store := new RC.ResumeStore();

    // create-resume
    var state := SubmitResumeForm(jobDescription, userInput, generate);
    CreatePage.SuccessStoresResume(jobDescription, userInput, generate, resume, store.Data());
    var createToasts, createNav := CreatePage.OnActionState(state, jobDescription, userInput, store);
    assert store.Data() == RC.ResumeData(jobDescription, userInput, resume, false);

    // preview-resume: stays, shows the locked preview
    assert Redirect(PreviewResume, store.Data()).None?;

    // payment: stays, the unlock button fires its timer
    var payment := new PaymentPage.PaymentPage(store);
    assert Redirect(Payment, store.Data()).None?;
    payment.ClickUnlock();
    var unlockToast, unlockNav := payment.UnlockTimerFired();
    navs := [createNav.value, unlockNav];
  }

  /** The download page of an unlocked session: it lets the visitor stay, and both formats are
      saved. The PDF server action runs on an empty file system with no faults. */
  method DownloadBoth(store: RC.ResumeStore, styles: string, tempDir: string, uniqueId: nat, pdf: seq<byte>)
    returns (download: DownloadPage.DownloadPage, htmlFile: Option<DownloadPage.SavedFile>,
             pdfFile: Option<DownloadPage.SavedFile>, leftovers: set<string>)
    requires store.isPaid && store.generatedResumeHtml != [] && pdf != []
    ensures fresh(download) && download.store == store
    ensures Redirect(DownloadResume, store.Data()).None?
    ensures htmlFile == Some(DownloadPage.TextFile(DownloadPage.HtmlFileName, "text/html",
                                                   ExportDocument.HtmlDocument(styles, store.generatedResumeHtml)))
    ensures pdfFile == Some(DownloadPage.BinaryFile(DownloadPage.PdfFileName, "application/pdf", pdf))
    ensures leftovers == {}
  {
    download := new DownloadPage.DownloadPage(store, styles);
    assert Redirect(DownloadResume, store.Data()).None?;
    var htmlToasts;
    htmlFile, htmlToasts := download.DownloadHtml();
    var startToasts, request := download.BeginDownloadPdf();
    var response;
    response, leftovers := ConvertOnEmptyDisk(request.value, tempDir, uniqueId, pdf);
    var doneToast;
    doneToast, pdfFile := download.CompleteDownloadPdf(DownloadPage.Replied(response));
  }

  /** The PDF server action on a file system holding no other files, with a converter that
      writes `pdf`: the client saves exactly those bytes, and no temporary file is left. */
  method ConvertOnEmptyDisk(request: DownloadPage.PdfRequest, tempDir: string, uniqueId: nat, pdf: seq<byte>)
    returns (response: PdfAction.PdfResponse, leftovers: set<string>)
    requires request.fileName != [] && pdf != []
    ensures DownloadPage.Outcome(DownloadPage.Replied(response))
         == DownloadPage.PdfSaved(DownloadPage.BinaryFile(request.fileName, "application/pdf", pdf))
    ensures leftovers == {}
  {
    var fs := new PdfAction.FileSystem({});
    var env := PdfAction.Environment(None, PdfAction.ConvertDone(true), PdfAction.ReadBytes(pdf), {});
    response := PdfAction.GeneratePdfAction(fs, request.htmlToConvert, Some(request.fileName),
                                            tempDir, uniqueId, env);
    leftovers := fs.paths;
    ServerSuccessSaved(env, request.fileName, PdfAction.HtmlTempPath(tempDir, uniqueId),
                       PdfAction.PdfTempPath(tempDir, uniqueId), false);
  }
}
