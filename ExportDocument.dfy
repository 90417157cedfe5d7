/** The standalone document both download paths wrap the generated markup in:
    a fixed head ending in an open style element, the stylesheet, the close of the head
    and open of the body, the markup, and the close of the document. */
module ExportDocument {

  // ----- The template of the HTML download -----

  const HtmlHead: string :=
    "\n"
    + "<!DOCTYPE html>\n"
    + "<html lang=\"en\">\n"
    + "<head>\n"
    + "  <meta charset=\"UTF-8\">\n"
    + "  <meta name=\"viewport\" content=\"width=device-width, initial-scale=1.0\">\n"
    + "  <title>My Resume</title>\n"
    + "  <link rel=\"preconnect\" href=\"https://fonts.googleapis.com\" />\n"
    + "  <link rel=\"preconnect\" href=\"https://fonts.gstatic.com\" crossOrigin=\"anonymous\" />\n"
    + "  <link href=\"https://fonts.googleapis.com/css2?family=Inter:wght@400;500;600;700&display=swap\" rel=\"stylesheet\" />\n"
    + "  <link href=\"https://fonts.googleapis.com/css2?family=Space+Grotesk:wght@400;500;700&display=swap\" rel=\"stylesheet\" />\n"
    + "  <style>"
  const HtmlMiddle: string := "</style>\n</head>\n<body>\n  "
  const HtmlTail: string := "\n</body>\n</html>"

  // ----- The template of the PDF download, written out separately in the page -----

  const PdfHead: string :=
    "\n"
    + "<!DOCTYPE html>\n"
    + "<html lang=\"en\">\n"
    + "<head>\n"
    + "  <meta charset=\"UTF-8\">\n"
    + "  <meta name=\"viewport\" content=\"width=device-width, initial-scale=1.0\">\n"
    + "  <title>My Resume</title>\n"
    + "  <link rel=\"preconnect\" href=\"https://fonts.googleapis.com\" />\n"
    + "  <link rel=\"preconnect\" href=\"https://fonts.gstatic.com\" crossOrigin=\"anonymous\" />\n"
    + "  <link href=\"https://fonts.googleapis.com/css2?family=Inter:wght@400;500;600;700&display=swap\" rel=\"stylesheet\" />\n"
    + "  <link href=\"https://fonts.googleapis.com/css2?family=Space+Grotesk:wght@400;500;700&display=swap\" rel=\"stylesheet\" />\n"
    + "  <style>"
  const PdfMiddle: string := "</style>\n</head>\n<body>\n  "
  const PdfTail: string := "\n</body>\n</html>"

  /** The HTML download's document for a stylesheet and the generated markup. */
  function HtmlDocument(styles: string, markup: string): (doc: string)
    ensures |doc| == |HtmlHead| + |styles| + |HtmlMiddle| + |markup| + |HtmlTail|
    ensures doc[..|HtmlHead|] == HtmlHead
    ensures doc[|HtmlHead|..|HtmlHead| + |styles|] == styles
    ensures doc[|HtmlHead| + |styles|..|HtmlHead| + |styles| + |HtmlMiddle|] == HtmlMiddle
    ensures doc[|HtmlHead| + |styles| + |HtmlMiddle|..|doc| - |HtmlTail|] == markup
    ensures doc[|doc| - |HtmlTail|..] == HtmlTail
  {
    FiveParts(HtmlHead, styles, HtmlMiddle, markup, HtmlTail);
    HtmlHead + styles + HtmlMiddle + markup + HtmlTail
  }

  /** Each of five joined strings sits at the offset the lengths before it add up to. */
  lemma FiveParts(a: string, b: string, c: string, d: string, e: string)
    ensures var s := a + b + c + d + e;
      |s| == |a| + |b| + |c| + |d| + |e|
      && s[..|a|] == a && s[|a|..|a| + |b|] == b && s[|a| + |b|..|a| + |b| + |c|] == c
      && s[|a| + |b| + |c|..|s| - |e|] == d && s[|s| - |e|..] == e
  {
    var s := a + b + c + d + e;
    assert s == (((a + b) + c) + d) + e;
  }

  /** The document the PDF download sends to the server for conversion. */
  function PdfDocument(styles: string, markup: string): string
  {
    PdfHead + styles + PdfMiddle + markup + PdfTail
  }

  /** Recovers the markup from a document by cutting the fixed-length parts around it. */
  function ExtractMarkup(styles: string, doc: string): string
    requires |HtmlHead| + |styles| + |HtmlMiddle| + |HtmlTail| <= |doc|
  {
    doc[|HtmlHead| + |styles| + |HtmlMiddle|..|doc| - |HtmlTail|]
  }

  /** Unwrapping a wrapped document gives back the markup unchanged. */
  lemma ExtractAfterWrap(styles: string, markup: string)
    ensures |HtmlHead| + |styles| + |HtmlMiddle| + |HtmlTail| <= |HtmlDocument(styles, markup)|
    ensures ExtractMarkup(styles, HtmlDocument(styles, markup)) == markup
  {
    var doc := HtmlDocument(styles, markup);
    var start := |HtmlHead| + |styles| + |HtmlMiddle|;
    assert doc == (HtmlHead + styles + HtmlMiddle) + markup + HtmlTail;
    assert doc[start..|doc| - |HtmlTail|] == markup;
  }

  /** Distinct markups give distinct documents: wrapping loses nothing. */
  lemma WrapInjective(styles: string, m1: string, m2: string)
    requires HtmlDocument(styles, m1) == HtmlDocument(styles, m2)
    ensures m1 == m2
  {
    ExtractAfterWrap(styles, m1);
    ExtractAfterWrap(styles, m2);
  }

  /** Both download paths build the very same document. */
  lemma PdfShellIsHtmlShell(styles: string, markup: string)
    ensures PdfDocument(styles, markup) == HtmlDocument(styles, markup)
  {
  }
}
