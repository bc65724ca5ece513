/** The `if/elif` chain of lines 97-107 of app.py: which extractor an extension selects. */
module Dispatch {
  import opened Wrappers
  import opened FileNames
  import opened Extraction

  datatype Strategy = PdfOcr | DocxParagraphs | PlainText | ImageOcr

  /** The extractor for a lowered extension; `None` is the `else: continue` branch. */
  function SelectStrategy(ext: string): (s: Option<Strategy>)
    ensures s.Some? <==> ext in ALLOWED_EXTENSIONS
    ensures s == Some(PdfOcr) <==> ext == "pdf"
    ensures s == Some(DocxParagraphs) <==> ext == "docx"
    ensures s == Some(PlainText) <==> ext == "txt"
    ensures s == Some(ImageOcr) <==> ext == "jpg" || ext == "jpeg" || ext == "png"
  {
    if ext == "pdf" then Some(PdfOcr)
    else if ext == "docx" then Some(DocxParagraphs)
    else if ext == "txt" then Some(PlainText)
    else if ext in {"jpg", "jpeg", "png"} then Some(ImageOcr)
    else None
  }

  /** What the libraries report for one upload, whichever extractor reads it. */
  datatype Sources = Sources(
    pdfPages: Option<seq<Option<string>>>,
    docxParagraphs: Option<seq<string>>,
    txtDecoded: Option<string>,
    imageText: Option<string>)

  /** The text the selected extractor returns; every extractor returns a string, "" when its library raised. */
  function ExtractText(s: Strategy, sources: Sources): (text: string)
    ensures s == PdfOcr && sources.pdfPages.None? ==> text == ""
    ensures s == DocxParagraphs && sources.docxParagraphs.None? ==> text == ""
    ensures s == PlainText && sources.txtDecoded.None? ==> text == ""
    ensures s == ImageOcr && sources.imageText.None? ==> text == ""
  {
    match s
    case PdfOcr => PdfText(sources.pdfPages)
    case DocxParagraphs => ExtractTextFromDocx(sources.docxParagraphs)
    case PlainText => ExtractTextFromTxt(sources.txtDecoded)
    case ImageOcr => OcrFromImage(sources.imageText)
  }

  /** The text each allowed extension leads to, extractor by extractor. */
  lemma TextByExtension(ext: string, sources: Sources)
    requires ext in ALLOWED_EXTENSIONS
    ensures ext == "pdf" ==> ExtractText(SelectStrategy(ext).value, sources) == PdfText(sources.pdfPages)
    ensures ext == "docx" ==> ExtractText(SelectStrategy(ext).value, sources) == ExtractTextFromDocx(sources.docxParagraphs)
    ensures ext == "txt" ==> ExtractText(SelectStrategy(ext).value, sources) == ExtractTextFromTxt(sources.txtDecoded)
    ensures ext in {"jpg", "jpeg", "png"} ==> ExtractText(SelectStrategy(ext).value, sources) == OcrFromImage(sources.imageText)
  {
  }

  /**
   * Lines 98-107 run on the stored copy: the extractor the extension selects,
   * or `None` for the `else: continue` branch.
   */
  method ExtractStored(extension: string, sources: Sources) returns (text: Option<string>)
    ensures text.None? <==> extension !in ALLOWED_EXTENSIONS
    ensures text.Some? ==> text.value == ExtractText(SelectStrategy(extension).value, sources)
  {
    var extractedText: string;
    if extension == "pdf" {
      extractedText := OcrFromPdf(sources.pdfPages);
    } else if extension == "docx" {
      extractedText := ExtractTextFromDocx(sources.docxParagraphs);
    } else if extension == "txt" {
      extractedText := ExtractTextFromTxt(sources.txtDecoded);
    } else if extension in {"jpg", "jpeg", "png"} {
      extractedText := OcrFromImage(sources.imageText);
    } else {
      return None;
    }
    return Some(extractedText);
  }

  /**
   * For a name `allowed_file` accepts, the extension line 97 computes from
   * that same name selects an extractor. Line 89 checks the client's name
   * and line 97 reads the sanitised one, so this applies to the sanitised
   * name when that name is itself accepted: then the `continue` branch is
   * not taken.
   */
  lemma AcceptedNameIsDispatched(filename: string)
    requires AllowedFile(filename)
    ensures Extension(filename).Some?
    ensures SelectStrategy(Extension(filename).value).Some?
  {
  }

  /** Routing ignores case: "IMAGE.PNG" and "image.png" meet the same extractor. */
  lemma RoutingIgnoresCase(filename: string)
    ensures Extension(Lower(filename)) == Extension(filename)
    ensures Extension(filename).Some? ==>
      SelectStrategy(Extension(Lower(filename)).value) == SelectStrategy(Extension(filename).value)
  {
    ExtensionIgnoresCase(filename);
  }
}
