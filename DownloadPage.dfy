/** The download page: its access check, what it renders, the HTML download, the two halves of
    the PDF download around the server call, and starting over. */
module DownloadPage {
  import opened Common
  import opened Ui
  import opened ExportDocument
  import Base64
  import PdfAction
  import RC = ResumeContext

  const HtmlFileName: string := "Resumatic_AI_Resume.html"
  const PdfFileName: string := "Resumatic_AI_Resume.pdf"

  const AccessDeniedToast: Toast := Toast("Access Denied", "Payment required to access this page.", true)
  const NoResumeToast: Toast := Toast("No Resume Found", "Please generate a resume first.", true)
  const HtmlStartedToast: Toast := Toast("Download Started", "Your HTML resume is downloading.", false)
  const NoContentToast: Toast := Toast("Error", "No resume content to generate PDF.", true)
  const GeneratingToast: Toast := Toast("Generating PDF...", "Please wait. This can take a moment.", false)
  const PdfSavedToast: Toast := Toast("Success!", "Your PDF resume has been downloaded.", false)
  const PdfFailedTitle: string := "PDF Generation Failed"
  const PdfFailedFallback: string :=
    "Could not generate PDF. Please try the HTML download, or try PDF again later."
  const PdfErrorToast: Toast :=
    Toast("Error", "An unexpected error occurred while generating the PDF. Please try the HTML download.", true)

  const PdfLabel: string := "Download as PDF"
  const PdfLoadingLabel: string := "Generating PDF..."

  /** What the effect does after a render: toasts, then at most one navigation. */
  datatype Effect = Effect(toasts: seq<Toast>, nav: Option<Nav>)

  /** What the page renders. */
  datatype View =
    | Verifying(link: Route)
    | DownloadOptions(pdfButtonDisabled: bool, pdfButtonLabel: string, patienceNote: bool)

  /** A file handed to the browser for saving. */
  datatype SavedFile =
    | TextFile(fileName: string, mimeType: string, text: string)
    | BinaryFile(fileName: string, mimeType: string, bytes: seq<byte>)

  /** The request the page sends to the PDF server action. */
  datatype PdfRequest = PdfRequest(htmlToConvert: string, fileName: string)

  /** How the awaited server call ends: with a response, or by throwing. */
  datatype PdfReply = Replied(response: PdfAction.PdfResponse) | CallThrew

  /** The three ways the PDF download ends on the client. */
  datatype PdfOutcome = PdfSaved(file: SavedFile) | PdfFailed(description: string) | PdfErrored

  // ----- Access check and rendering -----

  function AccessCheck(d: RC.ResumeData): (e: Effect)
    ensures e.nav.None? <==> d.isPaid && Truthy(d.generatedResumeHtml)
    ensures e.nav.None? ==> e.toasts == []
    ensures !d.isPaid ==> e == Effect([AccessDeniedToast], Some(Replace(Payment)))
    ensures d.isPaid && !Truthy(d.generatedResumeHtml) ==> e == Effect([NoResumeToast], Some(Replace(CreateResume)))
  {
    if !d.isPaid then Effect([AccessDeniedToast], Some(Replace(Payment)))
    else if !Truthy(d.generatedResumeHtml) then Effect([NoResumeToast], Some(Replace(CreateResume)))
    else Effect([], None)
  }

  function Render(d: RC.ResumeData, isPdfLoading: bool): (v: View)
    ensures v.DownloadOptions? <==> d.isPaid && Truthy(d.generatedResumeHtml)
    ensures v.DownloadOptions? ==> (v.pdfButtonDisabled <==> isPdfLoading) && (v.patienceNote <==> isPdfLoading)
    ensures v.DownloadOptions? ==> v.pdfButtonLabel == if isPdfLoading then PdfLoadingLabel else PdfLabel
    ensures v.Verifying? ==> v.link == CreateResume
  {
    if !d.isPaid || !Truthy(d.generatedResumeHtml) then Verifying(CreateResume)
    else DownloadOptions(isPdfLoading, if isPdfLoading then PdfLoadingLabel else PdfLabel, isPdfLoading)
  }

  /** The download options are shown exactly when the access check lets the visitor stay. */
  lemma OptionsIffAccessGranted(d: RC.ResumeData, isPdfLoading: bool)
    ensures Render(d, isPdfLoading).DownloadOptions? <==> AccessCheck(d).nav.None?
  {
  }

  // ----- Turning the base64 reply into bytes -----

  /** The loop over the decoded binary string collecting each character's code. */
  method CharCodes(s: string) returns (codes: array<int>)
    ensures codes.Length == |s|
    ensures forall i :: 0 <= i < |s| ==> codes[i] == s[i] as int
  {
    codes := new int[|s|];
    for i := 0 to |s|
      invariant forall j :: 0 <= j < i ==> codes[j] == s[j] as int
    {
      codes[i] := s[i] as int;
    }
  }

  /** new Uint8Array(numbers): each number taken modulo 256. */
  function Uint8Array(numbers: seq<int>): (b: seq<byte>)
    ensures |b| == |numbers|
    ensures forall i :: 0 <= i < |numbers| && 0 <= numbers[i] < 256 ==> b[i] == numbers[i]
  {
    seq(|numbers|, i requires 0 <= i < |numbers| => numbers[i] % 256)
  }

  /** The codes of a string's characters. */
  function Codes(s: string): (c: seq<int>)
    ensures |c| == |s|
  {
    seq(|s|, i requires 0 <= i < |s| => s[i] as int)
  }

  /** The bytes saved for an atob result are the bytes whose binary string it is. */
  lemma CodesOfBinaryString(s: string)
    requires forall i :: 0 <= i < |s| ==> s[i] as int < 256
    ensures Base64.BinaryString(Uint8Array(Codes(s))) == s
  {
    var b := Uint8Array(Codes(s));
    assert forall i :: 0 <= i < |s| ==> Base64.BinaryString(b)[i] as int == s[i] as int;
  }

  lemma BinaryStringInjective(b1: seq<byte>, b2: seq<byte>)
    requires Base64.BinaryString(b1) == Base64.BinaryString(b2)
    ensures b1 == b2
  {
    assert forall i :: 0 <= i < |b1| ==> b1[i] == Base64.BinaryString(b1)[i] as int;
  }

  /** What the client makes of the server action's reply. */
  function Outcome(reply: PdfReply): (o: PdfOutcome)
    ensures o.PdfSaved? <==>
      reply.Replied? && reply.response.success
      && reply.response.data.Some? && Truthy(reply.response.data.value)
      && reply.response.fileName.Some? && Truthy(reply.response.fileName.value)
      && Base64.Atob(reply.response.data.value).Some?
    ensures o.PdfSaved? ==>
      o.file.BinaryFile? && o.file.mimeType == "application/pdf"
      && o.file.fileName == reply.response.fileName.value
      && Base64.BinaryString(o.file.bytes) == Base64.Atob(reply.response.data.value).value
    ensures o.PdfFailed? ==>
      reply.Replied?
      && o.description == if reply.response.error.Some? && Truthy(reply.response.error.value)
                          then reply.response.error.value else PdfFailedFallback
    ensures o.PdfErrored? ==>
      reply.CallThrew? || (reply.response.data.Some? && Base64.Atob(reply.response.data.value).None?)
    ensures reply.Replied? && !(reply.response.success && reply.response.data.Some? && Truthy(reply.response.data.value)
                                && reply.response.fileName.Some? && Truthy(reply.response.fileName.value))
            ==> o.PdfFailed?
  {
    match reply
    case CallThrew => PdfErrored
    case Replied(r) =>
      if r.success && r.data.Some? && Truthy(r.data.value) && r.fileName.Some? && Truthy(r.fileName.value) then
        match Base64.Atob(r.data.value)
        case None => PdfErrored
        case Some(binary) =>
          CodesOfBinaryString(binary);
          PdfSaved(BinaryFile(r.fileName.value, "application/pdf", Uint8Array(Codes(binary))))
      else
        PdfFailed(if r.error.Some? && Truthy(r.error.value) then r.error.value else PdfFailedFallback)
  }

  function OutcomeToast(o: PdfOutcome): (t: Toast)
    ensures t.destructive <==> !o.PdfSaved?
    ensures o.PdfSaved? ==> t == PdfSavedToast
    ensures o.PdfFailed? ==> t.title == PdfFailedTitle && t.description == o.description
    ensures o.PdfErrored? ==> t == PdfErrorToast
  {
    match o
    case PdfSaved(_) => PdfSavedToast
    case PdfFailed(description) => Toast(PdfFailedTitle, description, true)
    case PdfErrored => PdfErrorToast
  }

  // ----- The page's handlers -----

  /** The page's own state next to the session store; `pendingRequests` counts PDF requests
      sent and not yet answered, and `styles` is the text getResumeStyles returns. */
  class DownloadPage {
    var isPdfLoading: bool
    var pendingRequests: nat
    const store: RC.ResumeStore
    const styles: string

    /** The loading flag is set exactly while one request is awaited. */
    predicate Valid()
      reads this
    {
      pendingRequests == if isPdfLoading then 1 else 0
    }

    constructor (store: RC.ResumeStore, styles: string)
      ensures this.store == store && this.styles == styles
      ensures !isPdfLoading && pendingRequests == 0 && Valid()
    {
      this.store := store;
      this.styles := styles;
      isPdfLoading := false;
      pendingRequests := 0;
    }

    /** downloadHtml: nothing without markup; otherwise the full document, from which the
        markup can be read back, and a toast. */
    method DownloadHtml() returns (file: Option<SavedFile>, toasts: seq<Toast>)
      ensures file.None? <==> !Truthy(store.generatedResumeHtml)
      ensures file.None? ==> toasts == []
      ensures file.Some? ==>
        file.value == TextFile(HtmlFileName, "text/html", HtmlDocument(styles, store.generatedResumeHtml))
        && toasts == [HtmlStartedToast]
      ensures file.Some? ==>
        |HtmlHead| + |styles| + |HtmlMiddle| + |HtmlTail| <= |file.value.text|
        && ExtractMarkup(styles, file.value.text) == store.generatedResumeHtml
    {
      if !Truthy(store.generatedResumeHtml) {
        return None, [];
      }
      var htmlContent := HtmlDocument(styles, store.generatedResumeHtml);
      ExtractAfterWrap(styles, store.generatedResumeHtml);
      file := Some(TextFile(HtmlFileName, "text/html", htmlContent));
      toasts := [HtmlStartedToast];
    }

    /** downloadPdf up to the server call. */
    method BeginDownloadPdf() returns (toasts: seq<Toast>, request: Option<PdfRequest>)
      requires Valid()
      modifies this
      ensures Valid()
      ensures request.Some? <==> Truthy(store.generatedResumeHtml) && !old(isPdfLoading)
      ensures !Truthy(store.generatedResumeHtml) ==> toasts == [NoContentToast]
      ensures request.None? ==> isPdfLoading == old(isPdfLoading) && pendingRequests == old(pendingRequests)
      ensures Truthy(store.generatedResumeHtml) && old(isPdfLoading) ==> toasts == []
      ensures request.Some? ==>
        isPdfLoading && pendingRequests == 1 && toasts == [GeneratingToast]
        && request.value == PdfRequest(PdfDocument(styles, store.generatedResumeHtml), PdfFileName)
    {
      if !Truthy(store.generatedResumeHtml) {
        return [NoContentToast], None;
      }
      if isPdfLoading {
        return [], None;
      }
      isPdfLoading := true;
      pendingRequests := pendingRequests + 1;
      toasts := [GeneratingToast];
      request := Some(PdfRequest(PdfDocument(styles, store.generatedResumeHtml), PdfFileName));
    }

    /** downloadPdf after the server call: save the file or report the failure, and in every
        case clear the loading flag. */
    method CompleteDownloadPdf(reply: PdfReply) returns (toast: Toast, saved: Option<SavedFile>)
      requires Valid() && pendingRequests > 0
      modifies this
      ensures Valid() && !isPdfLoading && pendingRequests == 0
      ensures toast == OutcomeToast(Outcome(reply))
      ensures saved.Some? <==> Outcome(reply).PdfSaved?
      ensures saved.Some? ==> saved.value == Outcome(reply).file
    {
      var outcome: PdfOutcome;
      match reply {
        case CallThrew =>
          outcome := PdfErrored;
        case Replied(r) =>
          if r.success && r.data.Some? && Truthy(r.data.value) && r.fileName.Some? && Truthy(r.fileName.value) {
            var binary := Base64.Atob(r.data.value);
            if binary.None? {
              outcome := PdfErrored;
            } else {
              var codes := CharCodes(binary.value);
              assert codes[..] == Codes(binary.value);
              outcome := PdfSaved(BinaryFile(r.fileName.value, "application/pdf", Uint8Array(codes[..])));
            }
          } else {
            outcome := PdfFailed(if r.error.Some? && Truthy(r.error.value) then r.error.value else PdfFailedFallback);
          }
      }
      toast := OutcomeToast(outcome);
      saved := if outcome.PdfSaved? then Some(outcome.file) else None;
      isPdfLoading := false;
      pendingRequests := 0;
    }

    /** handleStartOver: the session is reset and the home page pushed. */
    method StartOver() returns (nav: Nav)
      modifies store
      ensures store.Data() == RC.Reset(old(store.Data()))
      ensures nav == Push(Home)
    {
      store.ResetContext();
      nav := Push(Home);
    }
  }
}
