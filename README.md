# Extractor of Content, modelled in Dafny

This project models the text-extraction pipeline of the Flask application
`app.py`. A user uploads a batch of files, and each accepted file is handled in
order:

1. its name is validated against six extensions (`allowed_file`);
2. the upload is stored under `uploads/` with its sanitised name;
3. its lower-cased last extension selects one extractor (PDF OCR, Word
   paragraphs, plain text or image OCR);
4. the extracted text is written to a Word document named
   `<stem>_extracted_text.docx`.

The first file whose name is empty or not allowed ends the request with a
message.

Modules, one per part of the program:

- `Wrappers`: the `Option` type. `None` stands for a library call that raised.
- `Sequences`: generic facts about concatenation and slicing.
- `FileNames`: `allowed_file`, the `rsplit('.', 1)[1].lower()` of line 97, and
  `os.path.splitext` as the Windows `ntpath` module defines it (separators `\`
  and `/`).
- `Extraction`: the four extractors. `ocr_from_pdf` accumulates text in a loop,
  so it is an imperative `method`. It is proved equal to the function
  `PdfText`. The Word extractor's `"\n".join` is paired with a `Split` that
  undoes it for paragraphs without line breaks; joining the lines of any text
  gives the text back.
- `Writer`: the document `save_to_word` builds and the output path of lines
  109-110.
- `Dispatch`: the `if/elif` chain of lines 97-107.
- `Batch`: the loop of the request handler. `ProcessBatch` is an imperative
  method that keeps the source's early returns and `continue`. It is proved
  equal to the specification function `Run`, and the batch properties are
  lemmas about `Run`.

Library calls are not modelled, only what they return. Each `Upload` carries:

- the name the client sent;
- the name `secure_filename` made of it;
- a `Sources` record: the page texts OCR produced, the paragraph texts of the
  Word file, the decoded text file and the image OCR text, each `None` where the
  library raised.

Side effects on the file system are the `Effect` values the loop emits, in
order.

The model follows the code, including these behaviours a reader may not
expect:

- The batch is not isolated per file. An empty or refused name ends the whole
  request (`StopsAtFirstFailure`, `LaterFilesUntouched`). There is one message,
  not one outcome per file.
- A name that is accepted but whose sanitised form has no dot makes line 97
  raise `IndexError`. The request then crashes after the upload was stored
  (`Outcome.Crashed`). For example, a client name `.txt` is sanitised to `txt`.
- A text file is not returned verbatim. Opening it in text mode translates
  `\r\n` and a lone `\r` to `\n` (`TranslateNewlines`).
- Output names are not unique. Uploads with the same stem overwrite each
  other's output document (`SameStemCollides`, `CollisionExample`).

## Model

| member | source | states |
|---|---|---|
| FileNames.Lower | app.py:17 | lowering keeps the length and lowers each ASCII letter, leaving every other character |
| FileNames.LastIndexIn | app.py:17 | the position found holds one of the characters sought, and none of them occurs after it; -1 when none occurs |
| FileNames.RSplitLastDot | app.py:17 | a name with no dot gives one part, the name itself; otherwise two parts that rebuild the name around its last dot, the second part holding no dot |
| FileNames.Extension | app.py:97 | `None` (the IndexError) exactly when the name has no dot; otherwise the lowered text after the last dot |
| FileNames.AllowedFile | app.py:11-17 | a name is accepted exactly when it has an extension and that extension is one of the six allowed ones |
| FileNames.AllowedAtLastDot | app.py:16-17 | whether a name is accepted depends only on the text after its last dot |
| FileNames.AllowedFileIff | app.py:11-17 | accepted if and only if some position holds the last dot and the lowered text after it is allowed |
| FileNames.ExtensionIgnoresCase | app.py:17 | lower-casing the name changes neither the extension of line 97 nor the verdict of `allowed_file` |
| FileNames.RSplitOfStemAndExtension | app.py:17 | `stem.ext`, where `ext` has no dot, splits into `[stem, ext]` and has extension `Lower(ext)` |
| FileNames.AllowedStemAndExtension | app.py:16-17 | `stem.ext`, where `ext` has no dot, is accepted exactly when `ext` lowers to an allowed extension |
| FileNames.CaseOfExtensionIgnored | app.py:17 | `.PNG` and `.png` are both accepted, whatever the stem |
| FileNames.LastExtensionCounts | app.py:17 | a name like `scan.v2.Pdf` is accepted: only the last extension counts, whatever its case |
| FileNames.NoDotRejected | app.py:17 | a name without a dot is refused |
| FileNames.TrailingDotRejected | app.py:17 | a name ending in a dot (an empty extension) is refused |
| FileNames.OtherLastExtensionRejected | app.py:17 | `notes.txt.exe` is refused: an allowed extension that is not the last one does not count |
| FileNames.SplitExt | app.py:109 | root and extension rebuild the path; the extension is empty or is a dot followed by characters that are neither dots nor separators; a non-empty extension leaves in the root's last component a character that is not a dot |
| FileNames.SplitExtNonEmptyIff | app.py:109 | `splitext` finds a non-empty extension if and only if some position holds the last dot, no separator follows it and a non-dot character precedes it in its path component; the extension then starts at that position |
| FileNames.Stem | app.py:109 | the stem is a prefix of the name, and when it is not the whole name a dot follows it |
| FileNames.SplitExtOfStemAndExtension | app.py:109 | `splitext(stem.ext)` is `(stem, ".ext")` when neither part has a separator, `ext` has no dot and `stem` is not all dots |
| FileNames.StemAgreesWithRSplit | app.py:97-109 | for a name without separators that has a dot and does not start with one, `splitext` and `rsplit` agree on the part before the last dot |
| FileNames.SplitExtExample | app.py:109 | `report.final.pdf` splits into `report.final` and `.pdf` |
| FileNames.LeadingDotExample | app.py:109 | `.bashrc` has no extension |
| Extraction.PdfText | app.py:19-34 | a failed conversion and a document with no pages give ""; the lemmas below fix the value page by page |
| Extraction.OcrFromPdf | app.py:19-34 | the loop returns `PdfText`: the OCR texts of the pages that were recognised, concatenated in page order; a failed conversion gives "" |
| Extraction.Recognized | app.py:27-33 | no more texts are kept than there are pages |
| Extraction.PdfTextOfSplit | app.py:26-34 | the text of a document is the text of its first pages followed by the text of the rest |
| Extraction.PdfFailedPageSkipped | app.py:28-33 | a page whose OCR raised adds nothing, and the pages after it are still recognised |
| Extraction.PdfRecognizedPageKept | app.py:30-31 | a recognised page adds its text verbatim, between the texts of the pages before and after it |
| Extraction.PdfEmptyResults | app.py:20-34 | a failed conversion, a document with no pages and a document whose every page failed all give "" |
| Extraction.Join | app.py:39 | a single paragraph is returned as it is |
| Extraction.JoinAppend | app.py:39 | for all paragraph texts, newlines inside them included, joining two non-empty lists puts exactly one newline between their joins |
| Extraction.JoinKeepsInnerNewlines | app.py:39 | paragraphs `a\nb` and `c` read as `a\nb\nc` |
| Extraction.Split | app.py:39 | splitting at newlines gives at least one line, no line holds a newline, and joining the lines gives the text back |
| Extraction.SplitJoin | app.py:39 | joining newline-free paragraphs and then splitting gives back every paragraph, empty ones included |
| Extraction.ExtractTextFromDocx | app.py:36-43 | a failed read gives ""; otherwise the paragraph texts joined by newlines |
| Extraction.DocxExamples | app.py:36-43 | paragraphs `Hello`, empty, `World` read as `Hello\n\nWorld`; no paragraphs and a failed read both give "" |
| Extraction.TranslateNewlines | app.py:47-48 | the text read holds no `\r`, is no longer than the file, and equals the file when the file holds no `\r` |
| Extraction.TranslateCRLF | app.py:47-48 | after any text without carriage returns, `\r\n` reads as one `\n`; the text before is kept and the rest is read on |
| Extraction.TranslateLoneCR | app.py:47-48 | after any text without carriage returns, a `\r` not followed by `\n` reads as one `\n`; the text before is kept and the rest is read on |
| Extraction.ExtractTextFromTxt | app.py:45-52 | a failed open or decode gives ""; otherwise the decoded text with its line ends translated |
| Extraction.TranslateNewlinesIdempotent | app.py:47-48 | reading back a text that was already read leaves it unchanged |
| Extraction.TxtVerbatimExample | app.py:45-49 | a text without carriage returns is returned as decoded |
| Extraction.TxtNewlineExample | app.py:47-48 | `a\r\nb\rc` reads as `a\nb\nc` |
| Extraction.OcrFromImage | app.py:54-62 | the OCR text of the image, or "" when opening or recognising it failed |
| Writer.SaveToWord | app.py:64-68 | the document built holds two blocks: the level-0 heading `Extracted Text`, then one paragraph holding the text |
| Writer.ParagraphTexts | app.py:39 | one text per block of the document, in order, a heading counting as a paragraph |
| Writer.OutputDocumentReadsBack | app.py:64-68 | the output document value holds the level-0 heading `Extracted Text` and then one `Paragraph` block holding the text verbatim; the paragraph texts of that value, joined as the Word extractor joins them, give the heading, a newline and the text (a property of the document value, not of the .docx encoding) |
| Writer.OutputPath | app.py:109-110 | the output path starts with the folder and ends with `_extracted_text.docx` |
| Writer.OutputPathSameIffSameStem | app.py:109-110 | two uploads get the same output path if and only if their stems agree |
| Writer.SameStemCollides | app.py:109-110 | `stem.ext1` and `stem.ext2` are both written to `<folder><stem>_extracted_text.docx` |
| Writer.CollisionExample | app.py:109-110 | `a.pdf` and `a.png` overwrite each other's output |
| Dispatch.SelectStrategy | app.py:97-107 | an extractor is selected exactly for the six allowed extensions: PDF for `pdf`, Word for `docx`, plain text for `txt`, image OCR for `jpg`, `jpeg` and `png` |
| Dispatch.ExtractText | app.py:98-105 | whichever extractor is selected, it gives "" when its library raised |
| Dispatch.TextByExtension | app.py:98-105 | `pdf` gives the PDF OCR text, `docx` the joined paragraphs, `txt` the translated text, and `jpg`, `jpeg` and `png` the image OCR text |
| Dispatch.ExtractStored | app.py:98-107 | the `continue` branch is taken exactly for a disallowed extension; otherwise the text is that of the selected extractor |
| Dispatch.AcceptedNameIsDispatched | app.py:89-107 | a name `allowed_file` accepts has an extension at line 97, and that extension selects an extractor |
| Dispatch.RoutingIgnoresCase | app.py:97-105 | a name and its lower-cased form have the same extension and meet the same extractor |
| Batch.Message | app.py:85-113 | a page and its message are rendered for every outcome except the crash |
| Batch.SuccessMessageIffCompleted | app.py:85-113 | the success message is shown if and only if the loop completed |
| Batch.FileStep | app.py:84-111 | one pass of the loop body lets the loop continue exactly when the name is non-empty, accepted and its sanitised form has a dot; it never ends the request as completed |
| Batch.Steps | app.py:84 | the loop visits the uploads in submission order, one pass each |
| Batch.RunSteps | app.py:84-113 | the effects of the loop are, in order, the start of the effects of its steps |
| Batch.Run | app.py:84-113 | the effects of a request are, in order, the start of what its uploads' steps would do; an empty batch does nothing and completes |
| Batch.ProcessBatch | app.py:84-113 | the loop's effects and outcome are those of `Run` |
| Batch.StopOutcome | app.py:85-97 | an empty name ends with `No selected file` and no effect; a refused name ends with `File type not allowed` and no effect; a sanitised name without a dot is stored and then crashes |
| Batch.ProceedingStep | app.py:93-111 | an upload that proceeds is stored, then its output document is saved if its sanitised extension selects an extractor |
| Batch.ProceedingUploadSaved | app.py:93-111 | an upload that proceeds with an accepted sanitised name is stored and then has saved, under its output path, the document holding the text of the extractor its extension selects |
| Batch.CompletedIffAllProceed | app.py:84-113 | `Files processed successfully!` is reached if and only if every upload proceeds |
| Batch.CompletedRunsEveryFile | app.py:84-113 | when every upload proceeds, every upload has its effects, in submission order |
| Batch.StopsAtFirstFailure | app.py:84-97 | the first upload that does not proceed ends the batch: the earlier uploads have had their effects, its own come last, and it gives the outcome |
| Batch.LaterFilesUntouched | app.py:85-97 | the uploads after the first one that does not proceed are never looked at |
| Batch.LaterFilesIgnored | app.py:85-97 | appending uploads to a batch that stops changes nothing |
| Batch.CompletedThenRest | app.py:84-113 | a batch that completes, followed by another one, runs as the two batches one after the other |
| Batch.OneSavePerFile | app.py:93-111 | when every sanitised name is accepted, effect `2k` stores upload `k` and effect `2k+1` saves its document, so each upload is attempted exactly once, in submission order |

## Left out

- The HTTP layer: the `GET` request, the `No file part` branch of lines 77-79, `render_template` and the Flask application itself. Only the loop and its final message are modelled.
- Creating the upload folder at start-up, lines 13-14. This is file-system set-up with no logic.
- `secure_filename` is not modelled. Each upload carries its result as the `sanitized` field.
- `os.path.join` of lines 94 and 110 is modelled as concatenation. This holds because the configured folder ends with a separator and sanitised names hold none.
- `file.save` is modelled as the `StoreUpload` effect. A failure to store would raise out of the request, and that case is not modelled.
- `save_to_word` is modelled as the `SaveDocument` effect. Any failure inside it (`Document()`, `add_heading`, `add_paragraph` or `doc.save`) is caught and logged by the source, so the effect is recorded whether or not anything is written.
- `convert_from_path`, `pytesseract.image_to_string`, `Document`, `open(...).read()` and `Image.open` are not modelled. The project only takes their results, with `None` where they raise. This leaves out the 300 DPI rasterisation, the French language, the Tesseract data directory and UTF-8 decoding.
- The Word file format: `save_to_word` and the Word extractor both work on the document value (`Block`s), so how python-docx encodes and decodes a .docx is not modelled.
- The `print` calls that log failures are left out. They do not change any result.
- FileNames.Lower: lowers ASCII letters only. Python's `str.lower` also lowers other Unicode letters, which cannot occur in an allowed extension, so validation is unaffected.
- FileNames.SplitExt: models the separators of the Windows `ntpath` module. On POSIX only `/` separates path components. Sanitised names contain neither separator, so both rules agree on them.
- Concurrency and time-outs are not modelled.
