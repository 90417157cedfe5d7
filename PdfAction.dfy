/** The server action that converts the wrapped resume document to PDF: it writes the
    document to a temporary file, runs the converter, reads the PDF back as base64, turns
    every failure into an error response, and always removes both temporary files. */
module PdfAction {
  import opened Common
  import Base64

  const DefaultFileName: string := "Resumatic_AI_Resume.pdf"

  const PhantomMessage: string :=
    "PDF Generation Failed: PhantomJS, a required component, was not found or failed. Please try HTML download."
  const ConversionErrorPrefix: string := "PDF Generation Failed: Conversion error - "
  const ConversionErrorSuffix: string := ". Please try HTML download."
  const UnknownConversionError: string := "Unknown error during conversion"
  const NoOutputMessage: string :=
    "PDF Generation Failed: Output file was not created by the converter. This often indicates an issue with PhantomJS, especially on platforms like Vercel. Please try HTML download."
  const UnexpectedMessage: string := "An unexpected error occurred during PDF generation."
  const MissingPdfMessage: string :=
    "PDF Generation Failed: Could not find the generated PDF file. This usually means the conversion process itself failed (e.g., due to PhantomJS issues on the server). Please try HTML download."

  /** PdfGenerationResponse. */
  datatype PdfResponse = PdfResponse(success: bool, data: Option<string>, error: Option<string>, fileName: Option<string>)

  /** An error as the catch block sees it: its message, its Node.js error code and the path it concerns. */
  datatype Thrown = Thrown(message: Option<string>, code: Option<string>, path: Option<string>)

  /** A failed file-system call's error. */
  datatype IoError = IoError(message: Option<string>, code: Option<string>)

  /** What the converter's callback reports, and whether it left a file at the output path. */
  datatype ConverterOutcome =
    | ConvertError(message: Option<string>, leftOutput: bool)
    | ConvertDone(wroteOutput: bool)

  /** What reading the output file back gives. */
  datatype ReadOutcome = ReadBytes(bytes: seq<byte>) | ReadFails(error: IoError)

  /** Everything the action learns from outside: the write of the HTML file, the converter,
      the read of the PDF file, and the paths whose unlink throws. */
  datatype Environment = Environment(
    writeFault: Option<IoError>,
    converter: ConverterOutcome,
    read: ReadOutcome,
    unlinkFaults: set<string>)

  // ----- Temporary paths -----

  function Digit(d: int): char
    requires 0 <= d < 10
  {
    ('0' as int + d) as char
  }

  /** The decimal text of a number, as a template literal prints `Date.now()`. */
  function Decimal(n: nat): (s: string)
    ensures |s| >= 1
  {
    if n < 10 then [Digit(n)] else Decimal(n / 10) + [Digit(n % 10)]
  }

  /** The HTML file sits directly in the temporary directory and has the .html extension. */
  function HtmlTempPath(tempDir: string, uniqueId: nat): (p: string)
    ensures |tempDir| < |p| && p[..|tempDir|] == tempDir && p[|tempDir|] == '/'
    ensures |p| >= 5 && p[|p| - 5..] == ".html"
  {
    tempDir + "/" + "resume-html-" + Decimal(uniqueId) + ".html"
  }

  /** The PDF file sits directly in the temporary directory and has the .pdf extension. */
  function PdfTempPath(tempDir: string, uniqueId: nat): (p: string)
    ensures |tempDir| < |p| && p[..|tempDir|] == tempDir && p[|tempDir|] == '/'
    ensures |p| >= 4 && p[|p| - 4..] == ".pdf"
  {
    tempDir + "/" + "resume-pdf-" + Decimal(uniqueId) + ".pdf"
  }

  /** The two temporary files of one request never coincide. */
  lemma TempPathsDistinct(tempDir: string, uniqueId: nat)
    ensures HtmlTempPath(tempDir, uniqueId) != PdfTempPath(tempDir, uniqueId)
  {
    var k := |tempDir| + 1 + 7;
    assert HtmlTempPath(tempDir, uniqueId)[k] == 'h';
    assert PdfTempPath(tempDir, uniqueId)[k] == 'p';
  }

  lemma {:induction false} DecimalInjective(a: nat, b: nat)
    requires Decimal(a) == Decimal(b)
    ensures a == b
  {
    if a >= 10 && b >= 10 {
      var da, db := Decimal(a), Decimal(b);
      assert da[..|da| - 1] == Decimal(a / 10);
      assert db[..|db| - 1] == Decimal(b / 10);
      DecimalInjective(a / 10, b / 10);
      assert Digit(a % 10) == da[|da| - 1] == db[|db| - 1] == Digit(b % 10);
    }
  }

  lemma HtmlTempPathInjective(tempDir: string, id1: nat, id2: nat)
    requires HtmlTempPath(tempDir, id1) == HtmlTempPath(tempDir, id2)
    ensures id1 == id2
  {
    var d1, d2 := Decimal(id1), Decimal(id2);
    var h := tempDir + "/" + "resume-html-";
    assert HtmlTempPath(tempDir, id1) == h + d1 + ".html";
    assert HtmlTempPath(tempDir, id2) == h + d2 + ".html";
    assert d1 == HtmlTempPath(tempDir, id1)[|h|..|h| + |d1|];
    assert d2 == HtmlTempPath(tempDir, id2)[|h|..|h| + |d2|];
    DecimalInjective(id1, id2);
  }

  lemma PdfTempPathInjective(tempDir: string, id1: nat, id2: nat)
    requires PdfTempPath(tempDir, id1) == PdfTempPath(tempDir, id2)
    ensures id1 == id2
  {
    var d1, d2 := Decimal(id1), Decimal(id2);
    var p := tempDir + "/" + "resume-pdf-";
    assert PdfTempPath(tempDir, id1) == p + d1 + ".pdf";
    assert PdfTempPath(tempDir, id2) == p + d2 + ".pdf";
    assert d1 == PdfTempPath(tempDir, id1)[|p|..|p| + |d1|];
    assert d2 == PdfTempPath(tempDir, id2)[|p|..|p| + |d2|];
    DecimalInjective(id1, id2);
  }

  /** Requests with different ids use different files: the unique id is what keeps them apart. */
  lemma TempPathsUnique(tempDir: string, id1: nat, id2: nat)
    requires id1 != id2
    ensures HtmlTempPath(tempDir, id1) != HtmlTempPath(tempDir, id2)
    ensures PdfTempPath(tempDir, id1) != PdfTempPath(tempDir, id2)
  {
    if HtmlTempPath(tempDir, id1) == HtmlTempPath(tempDir, id2) {
      HtmlTempPathInjective(tempDir, id1, id2);
    }
    if PdfTempPath(tempDir, id1) == PdfTempPath(tempDir, id2) {
      PdfTempPathInjective(tempDir, id1, id2);
    }
  }

  // ----- Error classification -----

  /** The error the converter callback rejects with, or None when it resolves
      (no error reported and the output file exists). */
  function ConverterRejection(outcome: ConverterOutcome, outputExists: bool): (r: Option<string>)
    ensures outcome.ConvertDone? ==> (r.None? <==> outputExists)
    ensures outcome.ConvertDone? && !outputExists ==> r == Some(NoOutputMessage)
    ensures outcome.ConvertError? ==> r.Some?
  {
    match outcome
    case ConvertError(message, _) =>
      if message.Some? && Truthy(message.value) && Contains(ToLower(message.value), "phantomjs") then
        Some(PhantomMessage)
      else
        Some(ConversionErrorPrefix
             + (if message.Some? && Truthy(message.value) then message.value else UnknownConversionError)
             + ConversionErrorSuffix)
    case ConvertDone(_) =>
      if outputExists then None else Some(NoOutputMessage)
  }

  /** The catch block's message: the error's own message (or a generic one), overridden for
      a missing PDF file. */
  function CatchMessage(e: Thrown, pdfPath: string): (m: string)
    ensures m != []
    ensures e.code == Some("ENOENT") && e.path == Some(pdfPath) ==> m == MissingPdfMessage
    ensures !(e.code == Some("ENOENT") && e.path == Some(pdfPath)) && e.message.Some? && e.message.value != []
            ==> m == e.message.value
    ensures !(e.code == Some("ENOENT") && e.path == Some(pdfPath)) && !(e.message.Some? && e.message.value != [])
            ==> m == UnexpectedMessage
  {
    if e.code == Some("ENOENT") && e.path == Some(pdfPath) then MissingPdfMessage
    else if e.message.Some? && Truthy(e.message.value) then e.message.value
    else UnexpectedMessage
  }

  function Failure(message: string): PdfResponse
  {
    PdfResponse(false, None, Some(message), None)
  }

  /** The response the action returns, given what the environment does and whether a file
      was already at the PDF path before the call. */
  function ResponseFor(env: Environment, fileName: string, htmlPath: string, pdfPath: string, pdfWasThere: bool)
    : (r: PdfResponse)
    requires htmlPath != pdfPath
    ensures r.success <==> r.data.Some?
    ensures r.success ==> r.error.None? && r.fileName == Some(fileName)
    ensures !r.success ==> r.data.None? && r.fileName.None? && r.error.Some? && r.error.value != []
  {
    match env.writeFault
    case Some(e) => Failure(CatchMessage(Thrown(e.message, e.code, Some(htmlPath)), pdfPath))
    case None =>
      var outputExists := pdfWasThere || OutputWritten(env.converter);
      match ConverterRejection(env.converter, outputExists)
      case Some(message) => Failure(CatchMessage(Thrown(Some(message), None, None), pdfPath))
      case None =>
        match env.read
        case ReadBytes(bytes) => PdfResponse(true, Some(Base64.Encode(bytes)), None, Some(fileName))
        case ReadFails(e) => Failure(CatchMessage(Thrown(e.message, e.code, Some(pdfPath)), pdfPath))
  }

  /** Whether the converter left a file at the output path. */
  predicate OutputWritten(outcome: ConverterOutcome)
  {
    match outcome
    case ConvertError(_, left) => left
    case ConvertDone(wrote) => wrote
  }

  // ----- The file system and the action -----

  /** The server's file system, seen as the set of paths that exist. */
  class FileSystem {
    var paths: set<string>

    constructor (initial: set<string>)
      ensures paths == initial
    {
      paths := initial;
    }

    function Exists(path: string): bool
      reads this
    {
      path in paths
    }

    method WriteFile(path: string, fault: Option<IoError>) returns (error: Option<Thrown>)
      modifies this
      ensures error.Some? <==> fault.Some?
      ensures fault.Some? ==> error == Some(Thrown(fault.value.message, fault.value.code, Some(path)))
      ensures paths == if fault.Some? then old(paths) else old(paths) + {path}
    {
      if fault.Some? {
        error := Some(Thrown(fault.value.message, fault.value.code, Some(path)));
      } else {
        paths := paths + {path};
        error := None;
      }
    }

    /** Removes a path, unless its unlink throws. */
    method Unlink(path: string, faults: set<string>) returns (ok: bool)
      modifies this
      ensures ok <==> path !in faults
      ensures paths == if ok then old(paths) - {path} else old(paths)
    {
      ok := path !in faults;
      if ok {
        paths := paths - {path};
      }
    }
  }

  /** generatePdfAction. `fileName` None stands for the argument left out. */
  method GeneratePdfAction(fs: FileSystem, htmlToConvert: string, fileName: Option<string>,
                           tempDir: string, uniqueId: nat, env: Environment)
    returns (r: PdfResponse)
    modifies fs
    ensures var name := if fileName.Some? then fileName.value else DefaultFileName;
      r == ResponseFor(env, name, HtmlTempPath(tempDir, uniqueId), PdfTempPath(tempDir, uniqueId),
                       PdfTempPath(tempDir, uniqueId) in old(fs.paths))
    ensures fs.paths - {HtmlTempPath(tempDir, uniqueId), PdfTempPath(tempDir, uniqueId)}
         == old(fs.paths) - {HtmlTempPath(tempDir, uniqueId), PdfTempPath(tempDir, uniqueId)}
    ensures HtmlTempPath(tempDir, uniqueId) !in env.unlinkFaults ==> HtmlTempPath(tempDir, uniqueId) !in fs.paths
    ensures HtmlTempPath(tempDir, uniqueId) !in env.unlinkFaults && PdfTempPath(tempDir, uniqueId) !in env.unlinkFaults
            ==> fs.paths == old(fs.paths) - {HtmlTempPath(tempDir, uniqueId), PdfTempPath(tempDir, uniqueId)}
  {
    var name := if fileName.Some? then fileName.value else DefaultFileName;
    var htmlPath, pdfPath := HtmlTempPath(tempDir, uniqueId), PdfTempPath(tempDir, uniqueId);
    TempPathsDistinct(tempDir, uniqueId);
    ghost var pdfWasThere := pdfPath in fs.paths;

    // try
    var thrown: Option<Thrown> := fs.WriteFile(htmlPath, env.writeFault);
    if thrown.None? {
      if OutputWritten(env.converter) {
        fs.paths := fs.paths + {pdfPath};
      }
      var rejection := ConverterRejection(env.converter, fs.Exists(pdfPath));
      if rejection.Some? {
        thrown := Some(Thrown(rejection, None, None));
      } else {
        match env.read
        case ReadBytes(bytes) =>
          r := PdfResponse(true, Some(Base64.Encode(bytes)), None, Some(name));
        case ReadFails(e) =>
          thrown := Some(Thrown(e.message, e.code, Some(pdfPath)));
      }
    }
    // catch
    if thrown.Some? {
      r := Failure(CatchMessage(thrown.value, pdfPath));
    }
    // finally
    var ok := true;
    if fs.Exists(htmlPath) {
      ok := fs.Unlink(htmlPath, env.unlinkFaults);
    }
    if ok && fs.Exists(pdfPath) {
      ok := fs.Unlink(pdfPath, env.unlinkFaults);
    }
  }

  // ----- Properties of the response -----

  /** Success exactly when the HTML was written, the converter reported no error, the output
      file exists and reading it worked; the data is then the base64 of the bytes read. */
  lemma SuccessCharacterised(env: Environment, fileName: string, htmlPath: string, pdfPath: string, pdfWasThere: bool)
    requires htmlPath != pdfPath
    ensures var r := ResponseFor(env, fileName, htmlPath, pdfPath, pdfWasThere);
      r.success <==> env.writeFault.None? && env.converter.ConvertDone?
                     && (pdfWasThere || env.converter.wroteOutput) && env.read.ReadBytes?
    ensures var r := ResponseFor(env, fileName, htmlPath, pdfPath, pdfWasThere);
      r.success ==> r.data == Some(Base64.Encode(env.read.bytes))
  {
  }

  /** A converter error that mentions PhantomJS, in any letter case, gets the PhantomJS message. */
  lemma PhantomErrorClassified(env: Environment, fileName: string, htmlPath: string, pdfPath: string,
                               pdfWasThere: bool, message: string)
    requires htmlPath != pdfPath
    requires env.writeFault.None? && env.converter.ConvertError? && env.converter.message == Some(message)
    requires Contains(ToLower(message), "phantomjs")
    ensures ResponseFor(env, fileName, htmlPath, pdfPath, pdfWasThere) == Failure(PhantomMessage)
  {
    assert message != [];
  }

  /** Any other converter error is embedded in the conversion-error message. */
  lemma OtherErrorEmbedded(env: Environment, fileName: string, htmlPath: string, pdfPath: string,
                           pdfWasThere: bool, message: string)
    requires htmlPath != pdfPath
    requires env.writeFault.None? && env.converter.ConvertError? && env.converter.message == Some(message)
    requires message != [] && !Contains(ToLower(message), "phantomjs")
    ensures var r := ResponseFor(env, fileName, htmlPath, pdfPath, pdfWasThere);
      !r.success && r.error == Some(ConversionErrorPrefix + message + ConversionErrorSuffix)
      && Contains(r.error.value, message)
  {
    var text := ConversionErrorPrefix + message + ConversionErrorSuffix;
    assert text[|ConversionErrorPrefix|..|ConversionErrorPrefix| + |message|] == message;
    assert OccursAt(text, message, |ConversionErrorPrefix|);
  }

  /** A converter error without a message gets the unknown-error text. */
  lemma MissingErrorMessage(env: Environment, fileName: string, htmlPath: string, pdfPath: string, pdfWasThere: bool)
    requires htmlPath != pdfPath
    requires env.writeFault.None? && env.converter.ConvertError?
    requires env.converter.message == None || env.converter.message == Some("")
    ensures ResponseFor(env, fileName, htmlPath, pdfPath, pdfWasThere)
         == Failure(ConversionErrorPrefix + UnknownConversionError + ConversionErrorSuffix)
  {
  }

  /** Reported success without an output file is the "not created" failure. */
  lemma NoOutputClassified(env: Environment, fileName: string, htmlPath: string, pdfPath: string)
    requires htmlPath != pdfPath
    requires env.writeFault.None? && env.converter == ConvertDone(false)
    ensures ResponseFor(env, fileName, htmlPath, pdfPath, false) == Failure(NoOutputMessage)
  {
  }

  /** A read of the PDF path failing with ENOENT gets the missing-file message, whatever its own message. */
  lemma MissingPdfOverrides(env: Environment, fileName: string, htmlPath: string, pdfPath: string,
                            pdfWasThere: bool, message: Option<string>)
    requires htmlPath != pdfPath
    requires env.writeFault.None? && env.converter == ConvertDone(true)
    requires env.read == ReadFails(IoError(message, Some("ENOENT")))
    ensures ResponseFor(env, fileName, htmlPath, pdfPath, pdfWasThere) == Failure(MissingPdfMessage)
  {
  }

  /** A failed write of the HTML file is never taken for a missing PDF: its own message is reported. */
  lemma WriteFaultReported(env: Environment, fileName: string, htmlPath: string, pdfPath: string,
                           pdfWasThere: bool, message: string)
    requires htmlPath != pdfPath
    requires env.writeFault.Some? && env.writeFault.value.message == Some(message) && message != []
    ensures ResponseFor(env, fileName, htmlPath, pdfPath, pdfWasThere) == Failure(message)
  {
  }
}
