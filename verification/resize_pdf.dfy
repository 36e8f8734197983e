/**
  The `ResizePDF` class of src/pdf.py: a resizer built for one input file, that
  accepts the file only when its extension is `pdf` (in any case) and then sets
  the media box of every page to (0, 0)-(595, 842) and writes the pages, in
  order, to a file of the same name in the output directory.

  Reading the document (`open` + `PdfReader`) and writing it (`open` +
  `PdfWriter.write`) are calls into a PDF library and the file system; here
  they are the parameters `document` and `writeFailure` of `ResizePdfToA4`.
*/
module Pdf {
  import opened Wrappers
  import opened Strings
  import opened Paths
  import opened Pages

  /** What one call of `resize_pdf_to_a4` ends with. */
  datatype Outcome<C> =
    | Resized(path: string, pages: seq<Page<C>>)  // the output file was written with these pages
    | Failed(error: string)                       // an exception was caught and reported
    | NotSupported                                // not a PDF name: nothing was read or written

  /** The format to use: a falsy argument (`None` or the empty string) gives "A4". */
  function FormatOrDefault(requested: Option<string>): (format: string)
    ensures format != ""
    ensures format == "A4" || requested == Some(format)
    ensures requested.Some? && requested.value != "" ==> format == requested.value
  {
    if requested.Some? && requested.value != "" then requested.value else "A4"
  }

  /** `filename.split('.')[-1].lower() == docType`: the last dot-separated
      piece of the name, lowered, is the document type. */
  function ExtensionIs(filename: string, docType: string): (r: bool)
    ensures r <==> Lower(AfterLast(filename, '.')) == docType
  {
    LastPieceIsAfterLast(filename, '.');
    Lower(Last(Split(filename, '.'))) == docType
  }

  /** The name ends in "pdf", with each letter in either case, and those three
      letters are the whole name or follow a dot. */
  predicate EndsInPdfSuffix(name: string) {
    var n := |name|;
    && n >= 3
    && (name[n - 3] == 'p' || name[n - 3] == 'P')
    && (name[n - 2] == 'd' || name[n - 2] == 'D')
    && (name[n - 1] == 'f' || name[n - 1] == 'F')
    && (n == 3 || name[n - 4] == '.')
  }

  /** The extension comparison of `is_pdf` accepts exactly the names with a
      case-insensitive "pdf" after their last dot, or the bare name "pdf" in
      any case. */
  lemma PdfExtensionIff(name: string)
    ensures ExtensionIs(name, "pdf") <==> EndsInPdfSuffix(name)
  {
    var a := AfterLast(name, '.');
    LowerIsPdfIff(a);
    if EndsInPdfSuffix(name) {
      var q := name[|name| - 3..];
      assert q == [q[0], q[1], q[2]];
      AfterLastUnique(name, '.', q);
    }
  }

  /** Only the last piece counts: whatever stands before a dot is ignored. */
  lemma ExtensionOfLastPiece(prefix: string, rest: string, docType: string)
    ensures ExtensionIs(prefix + "." + rest, docType) == ExtensionIs(rest, docType)
  {
    var s := prefix + "." + rest;
    var a := AfterLast(rest, '.');
    assert s[|s| - |rest|..] == rest;
    assert s[|s| - |a|..] == a;
    if |a| == |rest| {
      assert s[|s| - |a| - 1] == '.';
    } else {
      assert s[|s| - |a| - 1] == rest[|rest| - |a| - 1];
    }
    AfterLastUnique(s, '.', a);
  }

  /** Names the extension comparison of `is_pdf` accepts. */
  lemma PdfNamesAccepted()
    ensures ExtensionIs("a.pdf", "pdf")
    ensures ExtensionIs("b.PDF", "pdf")
    ensures ExtensionIs("x.tar.pdf", "pdf")
    ensures ExtensionIs("pdf", "pdf")
    ensures ExtensionIs(".pdf", "pdf")
  {
    PdfExtensionIff("a.pdf");
    PdfExtensionIff("b.PDF");
    PdfExtensionIff("x.tar.pdf");
    PdfExtensionIff("pdf");
    PdfExtensionIff(".pdf");
  }

  /** Names the extension comparison of `is_pdf` rejects. */
  lemma NonPdfNamesRejected()
    ensures !ExtensionIs("c.txt", "pdf")
    ensures !ExtensionIs("report.pdf.txt", "pdf")
    ensures !ExtensionIs("d", "pdf")
    ensures !ExtensionIs("", "pdf")
    ensures !ExtensionIs("apdf", "pdf")
  {
    PdfExtensionIff("c.txt");
    PdfExtensionIff("report.pdf.txt");
    PdfExtensionIff("d");
    PdfExtensionIff("");
    PdfExtensionIff("apdf");
  }

  class ResizePdf {
    const inputPath: string
    const inputFilename: string
    /** The file written: the output directory, `/`, the input's basename. */
    const outputPath: string
    /** Stored and never read: the loop writes 595 x 842 whatever it says. */
    const desiredFormat: string
    const desiredDocType: string := "pdf"
    /** Stored and never read. */
    const formats: map<string, (int, int)> := map["A4" := (210, 297)]

    constructor (inputPath: string, outputDir: string, desiredFormat: Option<string>)
      ensures this.inputPath == inputPath
      ensures inputFilename == Basename(inputPath)
      ensures outputPath == OutputFile(outputDir, inputFilename)
      ensures this.desiredFormat == FormatOrDefault(desiredFormat)
      ensures desiredDocType == "pdf"
      ensures formats.Keys == {"A4"} && formats["A4"] == (210, 297)
    {
      this.inputPath := inputPath;
      inputFilename := Basename(inputPath);
      outputPath := OutputFile(outputDir, Basename(inputPath));
      this.desiredFormat := FormatOrDefault(desiredFormat);
    }

    /** `is_pdf`: whether the input's name ends in a PDF extension. */
    function IsPdf(): (r: bool)
      ensures r <==> EndsInPdfSuffix(inputFilename)
    {
      PdfExtensionIff(inputFilename);
      ExtensionIs(inputFilename, desiredDocType)
    }

    /** `resize_pdf_to_a4`. `document` is what reading the input gives: its
        pages, or the error raised while opening or parsing it. `writeFailure`
        is the error raised while writing the output, if any. */
    method ResizePdfToA4<C>(document: Result<seq<Page<C>>, string>, writeFailure: Option<string>)
      returns (outcome: Outcome<C>)
      ensures !IsPdf() ==> outcome == NotSupported
      ensures IsPdf() && document.Failure? ==> outcome == Failed(document.error)
      ensures IsPdf() && document.Success? && writeFailure.Some? ==> outcome == Failed(writeFailure.value)
      ensures IsPdf() && document.Success? && writeFailure.None? ==>
                outcome == Resized(outputPath, ResetAll(document.value))
    {
      if !IsPdf() {
        return NotSupported;
      }
      if document.Failure? {
        return Failed(document.error);
      }
      var pages := document.value;
      var reader := new Page<C>[|pages|](i requires 0 <= i < |pages| => pages[i]);
      var writer := new Writer<C>();
      for n := 0 to reader.Length
        invariant forall k :: 0 <= k < n ==> reader[k] == ResetBox(pages[k])
        invariant forall k :: n <= k < reader.Length ==> reader[k] == pages[k]
        invariant writer.pages == reader[..n]
      {
        var page := reader[n];
        page := page.(mediaBox := SetLowerLeft(page.mediaBox, 0.0, 0.0));
        page := page.(mediaBox := SetUpperRight(page.mediaBox, A4Width, A4Height));
        reader[n] := page;
        writer.AddPage(page);
      }
      if writeFailure.Some? {
        return Failed(writeFailure.value);
      }
      assert writer.pages == reader[..];
      ResetEachIsResetAll(pages, reader[..]);
      outcome := Resized(outputPath, writer.pages);
    }
  }
}
