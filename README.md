# Resumatic AI — a verified model of the resume wizard

Resumatic AI is a Next.js wizard with five steps. A visitor pastes a job description and a few lines about themselves. A server action validates the two texts and asks an AI generator for an HTML resume fragment. The fragment is shown as a locked preview. A free "payment" step unlocks it. The download page then saves the resume as a standalone HTML document, or as a PDF that a server action converts with a headless renderer and returns as base64.

This Dafny project models the logic around the AI call. The generator itself is an opaque input.

| file | models |
|---|---|
| `Common.dfy` | `Option`, bytes, JavaScript truthiness of strings, `includes`, ASCII `toLowerCase` |
| `Ui.dfy` | routes, `router.push` / `router.replace`, toasts |
| `FormAction.dfy` | `src/app/create-resume/actions.ts`: the schema's two minimum lengths and `submitResumeForm` |
| `ResumeContext.dfy` | `src/contexts/ResumeContext.tsx`: the session store as a class with four fields, four setters and `resetContext`, plus `useResumeContext` |
| `CreatePage.dfy` | `src/app/create-resume/page.tsx`: the effect that reacts to each action response (toasts, store writes, navigation) and the two inline-hint conditions |
| `PreviewPage.dfy` | `src/app/preview-resume/page.tsx`: the two redirect effects and the render guard |
| `PaymentPage.dfy` | `src/app/payment/page.tsx`: the redirect effect, the render guard and the unlock button with its loading flag and timer callback |
| `ExportDocument.dfy` | the document template written out twice in `src/app/download-resume/page.tsx`, for HTML and for PDF |
| `DownloadPage.dfy` | `src/app/download-resume/page.tsx`: the access check, the render guard, `downloadHtml`, `downloadPdf` split at its `await`, the loop that turns the decoded string into bytes, and `handleStartOver` |
| `Base64.dfy` | the base64 transport of the PDF: Node's `Buffer.toString('base64')` (section 4 of RFC 4648) and the browser's `atob` (forgiving-base64 decode of the WHATWG Infra standard) |
| `PdfAction.dfy` | `src/app/download-resume/actions.ts`: temporary paths, converter outcome and error classification, the response, and the `finally` cleanup on a file system modelled as a set of paths |
| `SessionFlow.dfy` | the pages' guards as one state machine, the PDF bytes going from server to saved file, and one complete session driven through every handler |

Modelling choices:
- Effects and renders are functions of the session snapshot `ResumeData`.
- Handlers that change page state or the session store are methods on classes that hold that state.
- An `async` handler with one `await` or timer is split in two at that point, so the loading flag can be observed between the halves. This covers `downloadPdf`, and `handleFreeUnlock` with its `setTimeout`.
- Everything the code learns from outside is a parameter:
  - the generator's outcome
  - the values left in the form's text areas
  - the stylesheet text
  - `os.tmpdir()` and `Date.now()`
  - the outcomes of the converter and of each file-system call
  - the server action's reply as the page receives it

The PDF path runs `html-to-pdf` on a temporary HTML file to make a temporary PDF file, and passes no print parameters.

## Model

| member | source | states |
|---|---|---|
| FormAction.Issues | src/app/create-resume/actions.ts:6-9 | The issues are exactly the messages of the failing minimum-length rules, job description first. Each failing rule gives its message once, so there are as many issues as failing rules, and the list is empty iff both texts are long enough. |
| FormAction.ResponseFor | src/app/create-resume/actions.ts:42-69 | Success iff the generator returned a non-empty resume; success carries that resume and no fields. A failure echoes both texts and carries no resume. An empty or absent output gets the "AI failed…" message; a throw gets the "unexpected error" message. |
| FormAction.SubmitResumeForm | src/app/create-resume/actions.ts:19-70 | Invalid input gives "Invalid form data." with both texts echoed and the issue list. Valid input gives the response for the generator's outcome on exactly the two texts. |
| FormAction.ValidationRule | src/app/create-resume/actions.ts:6-9 | Validation passes iff the job description has at least 50 characters and the personal text at least 20. |
| FormAction.GeneratorNotCalledWhenInvalid | src/app/create-resume/actions.ts:31-40 | On invalid input any two generators give the same response, so the generator is not consulted. |
| FormAction.GeneratorSeesFormValues | src/app/create-resume/actions.ts:42-47 | On valid input the response depends only on what the generator returns for the two texts. |
| FormAction.SuccessCharacterised | src/app/create-resume/actions.ts:47-54 | Success iff the input is valid and the generator returned a non-empty resume. The response then holds that resume and "Resume generated successfully!". |
| FormAction.FailuresEchoFields | src/app/create-resume/actions.ts:34-68 | No failure carries a resume, and every failure echoes both texts. |
| FormAction.IssuesOnlyOnValidationFailure | src/app/create-resume/actions.ts:31-39 | Issues are present iff validation failed. When present they are non-empty and come with "Invalid form data.". |
| ResumeContext.Reset | src/contexts/ResumeContext.tsx:23-28 | After a reset, all three strings are empty and `isPaid` is false. |
| ResumeContext.ResetIdempotent | src/contexts/ResumeContext.tsx:36-41 | Resetting twice is the same as resetting once, and the result does not depend on the prior state. |
| ResumeContext.ResumeStore.constructor | src/contexts/ResumeContext.tsx:31-34 | A fresh store holds the initial state. |
| ResumeContext.ResumeStore.SetJobDescription | src/contexts/ResumeContext.tsx:31 | The setter changes only `jobDescription`, and reading it returns the value set. |
| ResumeContext.ResumeStore.SetUserInput | src/contexts/ResumeContext.tsx:32 | The setter changes only `userInput`, and reading it returns the value set. |
| ResumeContext.ResumeStore.SetGeneratedResumeHtml | src/contexts/ResumeContext.tsx:33 | The setter changes only `generatedResumeHtml`, and reading it returns the value set. |
| ResumeContext.ResumeStore.SetIsPaid | src/contexts/ResumeContext.tsx:34 | The setter changes only `isPaid`, and reading it returns the value set. |
| ResumeContext.ResumeStore.ResetContext | src/contexts/ResumeContext.tsx:36-41 | Calling the four setters with the initial values leaves the store in the reset state, whatever it held. |
| ResumeContext.UseResumeContext | src/contexts/ResumeContext.tsx:62-67 | Outside a provider the result is the error "useResumeContext must be used within a ResumeProvider". Inside one it is that provider's store. |
| CreatePage.ReactionTo | src/app/create-resume/page.tsx:29-55 | Picks the effect's branch. Proceed iff success with a non-empty resume. Error iff a failure whose message is non-empty and not "Invalid form data."; that branch is tested first. Issues iff a failure without such a message but with a non-empty issue list. Otherwise no branch applies. |
| CreatePage.IssueToasts | src/app/create-resume/page.tsx:47-55 | One "Validation Error" toast per issue, in issue order, each destructive and showing its issue. |
| CreatePage.ToastEachIssue | src/app/create-resume/page.tsx:48-54 | The `forEach` loop produces the toasts of `IssueToasts`, one per issue, in order. |
| CreatePage.EffectToasts | src/app/create-resume/page.tsx:29-55 | One plain toast on success. Every toast is destructive iff the response is a failure. With issues, one toast per issue showing that issue. No toast exactly when no branch applies. |
| CreatePage.EffectNav | src/app/create-resume/page.tsx:33-35 | /preview-resume is pushed iff the response is a success with a non-empty resume. |
| CreatePage.EffectStore | src/app/create-resume/page.tsx:30-35 | On a success with a non-empty resume, the store holds the texts read back from the form and the resume, and keeps `isPaid`. Otherwise the store is unchanged. |
| CreatePage.JobHintShown | src/app/create-resume/page.tsx:83-84 | The job-description hint, as written, can only show for a response with a non-empty issue list and no echoed fields. |
| CreatePage.UserHintShown | src/app/create-resume/page.tsx:102-103 | The personal-information hint, as written, can only show for a response with a non-empty issue list and no echoed fields. |
| CreatePage.OnActionState | src/app/create-resume/page.tsx:29-56 | The effect's toasts and navigation are those of the selected branch. The store changes only on success, and then only its three text fields. |
| CreatePage.InitialStateIsQuiet | src/app/create-resume/page.tsx:17-20 | The initial state causes no toast, no navigation and no store write. |
| CreatePage.FailureLeavesStore | src/app/create-resume/page.tsx:41-55 | A state that is not a success leaves the store unchanged and does not navigate. |
| CreatePage.ErrorMessageToastedOnce | src/app/create-resume/page.tsx:41-46 | A failure with its own message shows exactly one destructive "Error" toast with that message, and no issue toasts. |
| CreatePage.ValidationFailureToasts | src/app/create-resume/page.tsx:47-55 | A validation failure from the action shows one toast per failing rule, in schema order (one or two). |
| CreatePage.GenerationFailureToast | src/app/create-resume/page.tsx:41-46 | A generator failure or exception shows one error toast with the action's message. It changes nothing and does not navigate. |
| CreatePage.SuccessStoresResume | src/app/create-resume/page.tsx:30-40 | Given that the form still holds the submitted texts, a successful submission stores them and the resume, toasts "Resume generated successfully!", and pushes /preview-resume. |
| CreatePage.HintsNeverShownForActionStates | src/app/create-resume/page.tsx:83-88 | Neither inline hint shows for the initial state or for any state the action returns, because every state with issues echoes the fields. |
| CreatePage.JobHintMatchesSchemaMessage | src/app/create-resume/page.tsx:83-84 | Lower-casing the schema's job-description message gives text that contains "job". |
| CreatePage.UserHintMatchesSchemaMessage | src/app/create-resume/page.tsx:102-103 | Lower-casing the schema's personal-information message gives text that contains "your information". |
| CreatePage.ShortJobDescriptionHintHidden | src/app/create-resume/page.tsx:83-88 | A 49-character job description is refused, but the job hint stays hidden, although the intended hint would show. |
| CreatePage.ShortUserInputHintHidden | src/app/create-resume/page.tsx:102-107 | A 19-character personal text is refused, but the personal-information hint stays hidden, although the intended hint would show. |
| CreatePage.JobHintIntendedIffTooShort | src/app/create-resume/page.tsx:83-88 | Without the `fields` test, the job hint shows for an action's response iff the job description is too short. |
| CreatePage.UserHintIntendedIffTooShort | src/app/create-resume/page.tsx:102-107 | Without the `fields` test, the personal-information hint shows for an action's response iff the personal text is too short. |
| PreviewPage.Redirects | src/app/preview-resume/page.tsx:15-26 | Empty markup and not paid: replace to /create-resume. Paid with markup: replace to /download-resume. Otherwise no redirect. At most one redirect is issued. |
| PreviewPage.Render | src/app/preview-resume/page.tsx:29-38 | The markup is shown, locked and with a link to /payment, iff it is non-empty. Otherwise a placeholder links to /create-resume. |
| PreviewPage.StaysOnlyWhenLockedOrOrphaned | src/app/preview-resume/page.tsx:15-38 | The page never redirects to itself. It stays iff it shows a locked resume, or a paid session has no markup (placeholder only). |
| PaymentPage.Redirects | src/app/payment/page.tsx:18-27 | Replace to /create-resume iff the markup is empty; replace to /download-resume iff paid. The two checks are independent, each replaces at most once, the /create-resume replace comes first, and when paid the last replace is to /download-resume. |
| PaymentPage.Render | src/app/payment/page.tsx:44-51 | The unlock offer is rendered iff there is markup and the session is not paid. Its button is disabled and reads "Unlocking..." iff loading. |
| PaymentPage.OfferIffNoRedirect | src/app/payment/page.tsx:18-51 | The unlock offer is rendered exactly when the effect does not navigate away. |
| PaymentPage.PaymentPage.constructor | src/app/payment/page.tsx:15 | The page starts not loading, with no timer pending. |
| PaymentPage.PaymentPage.ClickUnlock | src/app/payment/page.tsx:80-84 | A click on the enabled button schedules the timer. A click while loading does nothing. At most one timer is ever pending. |
| PaymentPage.PaymentPage.HandleFreeUnlock | src/app/payment/page.tsx:29-32 | The handler sets the loading flag and schedules one timer. |
| PaymentPage.PaymentPage.UnlockTimerFired | src/app/payment/page.tsx:32-41 | The callback sets only `isPaid` to true, whatever it was, and clears loading. It toasts "Resume Unlocked!" and pushes /download-resume. |
| ExportDocument.HtmlDocument | src/app/download-resume/page.tsx:219-235 | The document is the fixed head, the styles, the fixed middle, the markup and the fixed tail, at the stated offsets. |
| ExportDocument.ExtractAfterWrap | src/app/download-resume/page.tsx:219-235 | Cutting the fixed-length parts off a wrapped document gives back the markup unchanged. |
| ExportDocument.WrapInjective | src/app/download-resume/page.tsx:219-235 | Distinct markups give distinct documents. |
| ExportDocument.PdfShellIsHtmlShell | src/app/download-resume/page.tsx:258-274 | The PDF path's separately written template builds the same document as the HTML path. |
| DownloadPage.AccessCheck | src/app/download-resume/page.tsx:197-213 | Not paid: "Access Denied" toast and replace to /payment, whatever the markup. Paid without markup: "No Resume Found" and replace to /create-resume. Otherwise no toast and no navigation. |
| DownloadPage.Render | src/app/download-resume/page.tsx:322-366 | The download options render iff paid with markup. The PDF button is disabled, shows "Generating PDF..." and comes with the patience note iff loading. |
| DownloadPage.OptionsIffAccessGranted | src/app/download-resume/page.tsx:197-332 | The options are rendered exactly when the access check lets the visitor stay. |
| DownloadPage.CharCodes | src/app/download-resume/page.tsx:281-284 | The array has the decoded string's length, and element i is the code of character i. |
| DownloadPage.Uint8Array | src/app/download-resume/page.tsx:285 | Each number in 0..255 becomes the byte with that value. |
| DownloadPage.CodesOfBinaryString | src/app/download-resume/page.tsx:280-285 | For an `atob` result, the saved bytes are exactly the bytes whose binary string it is. |
| DownloadPage.Outcome | src/app/download-resume/page.tsx:276-311 | The file is saved iff the reply is a success with non-empty data and file name and the data decodes. It is then saved under that name as application/pdf, with the decoded bytes. Every other reply is a failure that shows the server's error, or the fallback text when the error is missing or empty; `atob` is never reached for it. A throw, or success data `atob` rejects, is the unexpected-error case. |
| DownloadPage.OutcomeToast | src/app/download-resume/page.tsx:295-311 | The final toast is destructive iff the PDF was not saved. It is the success toast for a saved file, the unexpected-error toast for a throw, and for a failure it is titled "PDF Generation Failed" and shows the failure's text. |
| DownloadPage.DownloadPage.constructor | src/app/download-resume/page.tsx:195 | The page starts with no PDF request in flight. |
| DownloadPage.DownloadPage.DownloadHtml | src/app/download-resume/page.tsx:215-246 | Nothing happens without markup. Otherwise "Resumatic_AI_Resume.html" (text/html) holds the wrapped document, from which the markup can be read back, and "Download Started" is toasted. |
| DownloadPage.DownloadPage.BeginDownloadPdf | src/app/download-resume/page.tsx:248-277 | Without markup: an error toast and no request. While loading: nothing. Otherwise the page starts loading, toasts "Generating PDF...", and requests the wrapped document as "Resumatic_AI_Resume.pdf". |
| DownloadPage.DownloadPage.CompleteDownloadPdf | src/app/download-resume/page.tsx:276-314 | On every path (saved, failure response, exception) loading ends. The toast and the saved file are those of the reply's outcome. |
| DownloadPage.DownloadPage.StartOver | src/app/download-resume/page.tsx:317-320 | All four session fields return to their initial values, and "/" is pushed. |
| Base64.SextetValue | src/app/download-resume/page.tsx:280 | Each alphabet character decodes to the 6-bit value that encodes to it. |
| Base64.EncodeUnpadded | src/app/download-resume/actions.ts:57 | The unpadded text uses only alphabet characters, is empty iff there are no bytes, and never ends with a group of one character. |
| Base64.EncodeUnpaddedLength | src/app/download-resume/actions.ts:57 | Every three bytes become four characters, and a final one or two bytes become two or three. |
| Base64.Encode | src/app/download-resume/actions.ts:57 | The padded text is whole groups of four, and is empty iff there are no bytes. |
| Base64.EncodeLength | src/app/download-resume/actions.ts:57 | The padded text has length 4·⌈n/3⌉. |
| Base64.StripWhitespace | src/app/download-resume/page.tsx:280 | The result contains no ASCII whitespace. |
| Base64.StripWhitespaceConcat | src/app/download-resume/page.tsx:280 | Stripping works piece by piece: the stripped concatenation is the concatenation of the stripped parts. |
| Base64.StripPadding | src/app/download-resume/page.tsx:280 | Only trailing `=` are removed, at most two and only when the length is a multiple of four. Then a trailing `=` is always removed, and a trailing `==` both. |
| Base64.Atob | src/app/download-resume/page.tsx:280 | A decoded string has only character codes below 256. |
| Base64.DecodeEncodeUnpadded | src/app/download-resume/page.tsx:280 | Decoding the unpadded encoding returns the original bytes. |
| Base64.AtobEncode | src/app/download-resume/page.tsx:280 | `atob` of the server's base64 is the binary string of the exact bytes encoded. |
| Base64.AtobRefusesDanglingCharacter | src/app/download-resume/page.tsx:280 | Input leaving one character over in its last group is rejected. |
| PdfAction.Decimal | src/app/download-resume/actions.ts:24-26 | The id's decimal text is never empty. |
| PdfAction.HtmlTempPath | src/app/download-resume/actions.ts:25 | The HTML file lies directly in the temporary directory and ends in ".html". |
| PdfAction.PdfTempPath | src/app/download-resume/actions.ts:26 | The PDF file lies directly in the temporary directory and ends in ".pdf". |
| PdfAction.TempPathsDistinct | src/app/download-resume/actions.ts:25-26 | The HTML and PDF temporary paths of a request differ. |
| PdfAction.TempPathsUnique | src/app/download-resume/actions.ts:24-26 | Requests with different ids use different temporary paths. |
| PdfAction.ConverterRejection | src/app/download-resume/actions.ts:35-50 | A reported success resolves iff the output file exists; without it, the "Output file was not created" message. Every reported error rejects. |
| PdfAction.CatchMessage | src/app/download-resume/actions.ts:64-69 | ENOENT on the PDF path gives the "Could not find the generated PDF file" message. Otherwise the error's own non-empty message is used, or else "An unexpected error occurred during PDF generation.". |
| PdfAction.ResponseFor | src/app/download-resume/actions.ts:28-73 | `success` iff `data` is present. A success carries the file name and no error. A failure carries a non-empty error and no data or file name. |
| PdfAction.FileSystem.WriteFile | src/app/download-resume/actions.ts:29 | A write adds its path, or fails, reporting its error and the path. |
| PdfAction.FileSystem.Unlink | src/app/download-resume/actions.ts:77 | An unlink removes its path, or throws and removes nothing. |
| PdfAction.GeneratePdfAction | src/app/download-resume/actions.ts:19-86 | The response is `ResponseFor` the outcomes and does not depend on cleanup faults. The file name defaults to "Resumatic_AI_Resume.pdf". No path other than the two temporary files changes. The HTML file is gone unless its unlink throws, and without unlink faults both are gone. |
| PdfAction.SuccessCharacterised | src/app/download-resume/actions.ts:44-63 | Success iff the write worked, the converter reported no error, the output file existed and reading it worked. The data is then the base64 of the bytes read. |
| PdfAction.PhantomErrorClassified | src/app/download-resume/actions.ts:38-39 | A converter error mentioning PhantomJS in any letter case gives the PhantomJS message. |
| PdfAction.OtherErrorEmbedded | src/app/download-resume/actions.ts:40-42 | Any other converter error message is embedded in the conversion-error text. |
| PdfAction.MissingErrorMessage | src/app/download-resume/actions.ts:41 | A converter error without a message gives "Unknown error during conversion" in the conversion-error text. |
| PdfAction.NoOutputClassified | src/app/download-resume/actions.ts:44-50 | A reported success with no output file gives the "Output file was not created" failure. |
| PdfAction.MissingPdfOverrides | src/app/download-resume/actions.ts:66-69 | ENOENT when reading the PDF gives the missing-file message, whatever the error's own text. |
| PdfAction.WriteFaultReported | src/app/download-resume/actions.ts:64-73 | A failed write of the HTML file reports the write error's own message. |
| SessionFlow.Redirect | src/app/payment/page.tsx:18-27 | No page redirects to itself, and only the preview, payment and download pages redirect. |
| SessionFlow.SettlesWithinTwoHops | src/app/download-resume/page.tsx:197-213 | No redirect loops: from any page and session, two hops reach a page that does not redirect. |
| SessionFlow.DownloadOnlyWhenUnlocked | src/app/download-resume/page.tsx:197-213 | A visitor lands on the download page iff the session is paid with markup (and they came from preview, payment or download). The download options are then rendered. |
| SessionFlow.UnlockedSkipsPayment | src/app/payment/page.tsx:23-26 | A paid session never lands on the payment page. |
| SessionFlow.EmptySessionLandsOnCreator | src/app/preview-resume/page.tsx:15-19 | Without markup and without payment, every wizard page leads to /create-resume. |
| SessionFlow.PdfReachesClient | src/app/download-resume/page.tsx:276-285 | A success response carrying the base64 of non-empty bytes is saved as exactly those bytes. |
| SessionFlow.ServerSuccessSaved | src/app/download-resume/actions.ts:56-63 | A PDF the server read successfully (non-empty) is saved by the browser byte for byte, under the requested name. |
| SessionFlow.ServerFailureShown | src/app/download-resume/page.tsx:296-303 | Every failure the server reports reaches the visitor verbatim, as the description of a destructive "PDF Generation Failed" toast. |
| SessionFlow.EmptyPdfShownAsFailure | src/app/download-resume/page.tsx:279 | An empty PDF encodes to "", which the page treats as missing data and reports with its fallback text. |
| SessionFlow.ShortJobDescriptionRefused | src/app/create-resume/actions.ts:6-9 | A 49-character job description is refused with its message, the store is untouched and there is no navigation. |
| SessionFlow.GeneratorThrowsKeepsSessionEmpty | src/app/create-resume/actions.ts:62-68 | A throwing generator is reported once, and a fresh session stays without a resume. |
| SessionFlow.SubmitAndUnlock | src/app/payment/page.tsx:29-41 | Given that the form still holds the submitted texts, a valid submission stores them and the resume. The preview and payment pages let the visitor stay with that session, and the unlock marks the session paid. Navigation goes to preview, then download. |
| SessionFlow.DownloadBoth | src/app/download-resume/page.tsx:215-314 | On a paid session with markup, the download page does not redirect. The HTML file holds the wrapped markup and the PDF file holds the exact bytes. No temporary file is left. |
| SessionFlow.ConvertOnEmptyDisk | src/app/download-resume/actions.ts:19-86 | On an empty file system with a converter that succeeds, the browser saves exactly the converter's bytes under the requested name, and both temporary files are removed. |
| SessionFlow.CompleteSession | src/app/download-resume/page.tsx:215-320 | Given that the form still holds the submitted texts, submitting, unlocking, downloading both formats and starting over navigates to preview, download and home. It saves the wrapped document and the exact PDF bytes, leaves no temporary file, and ends in the initial session. |

## Left out

- The generator (`src/ai/flows/generate-resume.ts`) and its prompt are not part of this model. The generator is an input that returns a resume, returns no output, or throws. The autofill flow is never called.
- The home page, the layout and the `Header`, `Footer`, `Logo` and `SubmitButton` components hold no logic. They are not part of this model.
- The CSS text of `getResumeStyles` is the `styles` parameter, with no CSS semantics or pagination.
- Common.ToLower: lower-cases only A–Z. JavaScript's `toLowerCase` also maps other letters. This matters to the hint conditions and to the PhantomJS check only for non-ASCII messages.
- FormAction.ValidationRule: lengths are counts of Unicode scalar values. zod counts UTF-16 code units, so text outside the Basic Multilingual Plane counts differently. A missing (`null`) form field is not modelled.
- CreatePage.OnActionState: the two texts read back from the form are parameters. The form's reset or refill between renders is not modelled.
- CreatePage.SuccessStoresResume, SessionFlow.SubmitAndUnlock and SessionFlow.CompleteSession: each passes the submitted texts as the values read back from the form. An uncontrolled form that React resets after a successful action would hold "" at that point (its defaults come from `fields`, which a success does not echo), and the store would then get empty texts. That case is not modelled.
- React scheduling is not modelled: effect re-runs, batching of the setters, and `useCallback` identities. Each effect runs once per render, on the render's snapshot.
- PaymentPage.PaymentPage.UnlockTimerFired: the one-second delay is left out. A timer that fires after the visitor left the page is not modelled.
- DownloadPage.DownloadPage.BeginDownloadPdf: reads the current loading flag. The source reads the value the handler's render captured.
- Toast durations, icons and the `action` element are left out. Toasts are recorded as title, description and variant.
- DOM download mechanics are left out: Blob, object URLs, the anchor click. A saved file is a value: name, MIME type and content. The UTF-8 encoding of the HTML blob is not modelled.
- PdfAction.HtmlTempPath and PdfAction.PdfTempPath join with "/". `path.join` normalisation is not modelled. `os.tmpdir()` and `Date.now()` are parameters, and uniqueness of `Date.now()` across concurrent requests is not modelled.
- The converter (`html-to-pdf` with PhantomJS) is an outcome: an error message and whether a file was left, or a reported success and whether a file was written. The PDF bytes read back are a parameter, unrelated to the HTML converted. Logging to the console is left out.
- PdfAction.GeneratePdfAction: a failed write is taken to leave no file behind. When an unlink throws, the contract says only that no other path changes and that the HTML file is gone unless its own unlink threw.
- SessionFlow.Redirect: when the payment page issues two `router.replace` calls in one effect, the later one is taken to win.

## Findings

| source | as written | input that shows it | evidently intended | confidence | as-written member | corrected member |
|---|---|---|---|---|---|---|
| src/app/create-resume/page.tsx:83-88 | The job hint needs `state.fields?.jobDescription === undefined`. Every response with issues echoes both fields (src/app/create-resume/actions.ts:37), so the hint never shows. | a job description of 49 characters | the hint shows when the job description fails its rule | medium, not executed | CreatePage.ShortJobDescriptionHintHidden | CreatePage.JobHintIntendedIffTooShort |
| src/app/create-resume/page.tsx:102-107 | The personal-information hint has the same `fields` test, so it never shows either. | a personal text of 19 characters | the hint shows when the personal text fails its rule | medium, not executed | CreatePage.ShortUserInputHintHidden | CreatePage.UserHintIntendedIffTooShort |
