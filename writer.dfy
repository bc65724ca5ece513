/** The output document of `save_to_word` and the path it is saved under (lines 109-110 of app.py). */
module Writer {
  import opened Wrappers
  import opened FileNames
  import opened Extraction

  /** The label of the heading every output document starts with. */
  const HEADING_TEXT := "Extracted Text"

  /** What is appended to the stem of an upload to name its output document. */
  const OUTPUT_SUFFIX := "_extracted_text.docx"

  /** A block of a Word document body. */
  datatype Block = Heading(text: string, level: nat) | Paragraph(text: string)

  /** `save_to_word`, as the document value it builds: `add_heading('Extracted Text', 0)`, then `add_paragraph(text)`. */
  function SaveToWord(text: string): (doc: seq<Block>)
    ensures |doc| == 2
    ensures doc[0] == Heading(HEADING_TEXT, 0) && doc[1] == Paragraph(text)
  {
    [Heading(HEADING_TEXT, 0), Paragraph(text)]
  }

  /** The texts `Document(path).paragraphs` yields for a document; a heading is a paragraph too. */
  function ParagraphTexts(doc: seq<Block>): (texts: seq<string>)
    ensures |texts| == |doc|
    ensures forall k :: 0 <= k < |doc| ==> texts[k] == doc[k].text
  {
    if doc == [] then [] else [doc[0].text] + ParagraphTexts(doc[1..])
  }

  /**
   * The output document holds a level-0 heading "Extracted Text" and then
   * exactly one paragraph, whose text is the extracted text verbatim; read
   * back by the docx extractor it gives the heading, a newline and the text.
   */
  lemma OutputDocumentReadsBack(text: string)
    ensures |SaveToWord(text)| == 2
    ensures SaveToWord(text)[0] == Heading(HEADING_TEXT, 0)
    ensures SaveToWord(text)[1] == Paragraph(text)
    ensures ParagraphTexts(SaveToWord(text)) == [HEADING_TEXT, text]
    ensures ExtractTextFromDocx(Some(ParagraphTexts(SaveToWord(text)))) == HEADING_TEXT + "\n" + text
  {
    assert [HEADING_TEXT, text][1..] == [text];
  }

  /** `os.path.join(folder, f'{base_filename}_extracted_text.docx')` for a folder ending in a separator. */
  function OutputPath(folder: string, filename: string): (path: string)
    ensures |path| >= |folder| + |OUTPUT_SUFFIX|
    ensures path[..|folder|] == folder && path[|path| - |OUTPUT_SUFFIX|..] == OUTPUT_SUFFIX
  {
    folder + Stem(filename) + OUTPUT_SUFFIX
  }

  /** Two uploads get the same output path exactly when their stems agree. */
  lemma OutputPathSameIffSameStem(folder: string, a: string, b: string)
    ensures OutputPath(folder, a) == OutputPath(folder, b) <==> Stem(a) == Stem(b)
  {
    var pa, pb := OutputPath(folder, a), OutputPath(folder, b);
    assert pa[|folder|..|pa| - |OUTPUT_SUFFIX|] == Stem(a);
    assert pb[|folder|..|pb| - |OUTPUT_SUFFIX|] == Stem(b);
  }

  /**
   * Uploads that differ only in their extension overwrite one another's
   * output: "a.pdf" and "a.png" are both saved as "a_extracted_text.docx".
   */
  lemma SameStemCollides(folder: string, stem: string, ext1: string, ext2: string)
    requires NoSeparators(stem) && NoSeparators(ext1) && NoSeparators(ext2)
    requires '.' !in ext1 && '.' !in ext2
    requires exists k :: 0 <= k < |stem| && stem[k] != '.'
    ensures OutputPath(folder, stem + "." + ext1) == folder + stem + OUTPUT_SUFFIX
    ensures OutputPath(folder, stem + "." + ext1) == OutputPath(folder, stem + "." + ext2)
  {
    SplitExtOfStemAndExtension(stem, ext1);
    SplitExtOfStemAndExtension(stem, ext2);
  }

  lemma CollisionExample()
    ensures OutputPath("uploads/", "a.pdf") == OutputPath("uploads/", "a.png")
  {
    var stem, pdf, png := "a", "pdf", "png";
    assert stem[0] != '.';
    assert NoSeparators(stem);
    assert NoSeparators(pdf) by {
      assert pdf[0] == 'p' && pdf[1] == 'd' && pdf[2] == 'f';
    }
    assert NoSeparators(png) by {
      assert png[0] == 'p' && png[1] == 'n' && png[2] == 'g';
    }
    SameStemCollides("uploads/", stem, pdf, png);
    assert stem + "." + pdf == "a.pdf" && stem + "." + png == "a.png";
  }
}
