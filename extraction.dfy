/**
 * The four extractors of app.py. Every library call is replaced by its
 * result: `None` where the library raised, which the source catches and
 * turns into the empty string.
 */
module Extraction {
  import opened Wrappers
  import opened Sequences

  // ---------------------------------------------------------------------
  // PDF: rasterise, then OCR page by page (`ocr_from_pdf`)
  // ---------------------------------------------------------------------

  /** The texts of the pages whose OCR succeeded, in page order. */
  function Recognized(pages: seq<Option<string>>): (texts: seq<string>)
    ensures |texts| <= |pages|
  {
    if pages == [] then []
    else
      var last := pages[|pages| - 1];
      Recognized(pages[..|pages| - 1]) + (if last.Some? then [last.value] else [])
  }

  /** The texts one after the other, with no separator. */
  function Concat(texts: seq<string>): string {
    if texts == [] then "" else Concat(texts[..|texts| - 1]) + texts[|texts| - 1]
  }

  /**
   * What `ocr_from_pdf` returns for a conversion result: `None` when
   * `convert_from_path` raised, otherwise one entry per page, `None` where
   * `image_to_string` raised on that page.
   */
  function PdfText(conversion: Option<seq<Option<string>>>): (text: string)
    ensures conversion.None? ==> text == ""
    ensures conversion == Some([]) ==> text == ""
  {
    match conversion
    case None => ""
    case Some(pages) => Concat(Recognized(pages))
  }

  /** `ocr_from_pdf`: `text += page_text` over the pages, skipping the pages whose OCR failed. */
  method OcrFromPdf(conversion: Option<seq<Option<string>>>) returns (text: string)
    ensures text == PdfText(conversion)
  {
    if conversion.None? {
      return "";
    }
    var pages := conversion.value;
    text := "";
    for i := 0 to |pages|
      invariant text == Concat(Recognized(pages[..i]))
    {
      ghost var done := Recognized(pages[..i]);
      assert pages[..i + 1][..i] == pages[..i];
      assert Recognized(pages[..i + 1]) == done + (if pages[i].Some? then [pages[i].value] else []);
      if pages[i].Some? {
        assert (done + [pages[i].value])[..|done|] == done;
        text := text + pages[i].value;
      } else {
        assert done + [] == done;
      }
    }
    assert pages[..|pages|] == pages;
  }

  lemma {:induction false} RecognizedAppend(a: seq<Option<string>>, b: seq<Option<string>>)
    ensures Recognized(a + b) == Recognized(a) + Recognized(b)
    decreases |b|
  {
    if b == [] {
      assert a + b == a;
    } else {
      var init := b[..|b| - 1];
      assert (a + b)[..|a + b| - 1] == a + init;
      RecognizedAppend(a, init);
    }
  }

  lemma {:induction false} ConcatAppend(x: seq<string>, y: seq<string>)
    ensures Concat(x + y) == Concat(x) + Concat(y)
    decreases |y|
  {
    if y == [] {
      assert x + y == x;
    } else {
      var init := y[..|y| - 1];
      assert (x + y)[..|x + y| - 1] == x + init;
      ConcatAppend(x, init);
    }
  }

  /** The text of a document is the text of its first pages followed by that of the rest. */
  lemma PdfTextOfSplit(a: seq<Option<string>>, b: seq<Option<string>>)
    ensures PdfText(Some(a + b)) == PdfText(Some(a)) + PdfText(Some(b))
  {
    RecognizedAppend(a, b);
    ConcatAppend(Recognized(a), Recognized(b));
  }

  /** A page whose OCR failed contributes nothing, and the pages after it are still read. */
  lemma PdfFailedPageSkipped(before: seq<Option<string>>, after: seq<Option<string>>)
    ensures PdfText(Some(before + [None] + after)) == PdfText(Some(before)) + PdfText(Some(after))
  {
    PdfTextOfSplit(before + [None], after);
    PdfTextOfSplit(before, [None]);
    var failed: seq<Option<string>> := [None];
    assert failed[..0] == [];
    assert Recognized(failed) == [];
  }

  /** A page whose OCR succeeded contributes its text verbatim, between the pages before and after it. */
  lemma PdfRecognizedPageKept(before: seq<Option<string>>, page: string, after: seq<Option<string>>)
    ensures PdfText(Some(before + [Some(page)] + after)) ==
            PdfText(Some(before)) + page + PdfText(Some(after))
  {
    PdfTextOfSplit(before + [Some(page)], after);
    PdfTextOfSplit(before, [Some(page)]);
    assert [Some(page)][..0] == [];
    assert Recognized([Some(page)]) == [page];
    assert [page][..0] == [];
  }

  /** A conversion failure, zero pages and a document whose every page failed all give "". */
  lemma {:induction false} PdfEmptyResults(pages: seq<Option<string>>)
    requires forall k :: 0 <= k < |pages| ==> pages[k].None?
    ensures PdfText(None) == ""
    ensures PdfText(Some(pages)) == ""
    decreases |pages|
  {
    if pages != [] {
      var init := pages[..|pages| - 1];
      PdfEmptyResults(init);
      PdfTextOfSplit(init, [pages[|pages| - 1]]);
      assert init + [pages[|pages| - 1]] == pages;
      assert [pages[|pages| - 1]][..0] == [];
    }
  }

  // ---------------------------------------------------------------------
  // DOCX: paragraph texts joined by a newline (`extract_text_from_docx`)
  // ---------------------------------------------------------------------

  /** `"\n".join(lines)`. */
  function Join(lines: seq<string>): (text: string)
    ensures |lines| == 1 ==> text == lines[0]
  {
    if |lines| == 0 then ""
    else if |lines| == 1 then lines[0]
    else lines[0] + "\n" + Join(lines[1..])
  }

  /**
   * Joining two non-empty lists of paragraphs puts one newline between their
   * joins, whatever the paragraphs hold, newlines included.
   */
  lemma {:induction false} JoinAppend(a: seq<string>, b: seq<string>)
    requires |a| >= 1 && |b| >= 1
    ensures Join(a + b) == Join(a) + "\n" + Join(b)
    decreases |a|
  {
    if |a| == 1 {
      assert (a + b)[0] == a[0] && (a + b)[1..] == b;
    } else {
      assert (a + b)[0] == a[0] && (a + b)[1..] == a[1..] + b;
      JoinAppend(a[1..], b);
    }
  }

  /** Paragraphs holding line breaks of their own: ["a\nb", "c"] reads as "a\nb\nc". */
  lemma JoinKeepsInnerNewlines()
    ensures Join(["a\nb", "c"]) == "a\nb\nc"
  {
    JoinAppend(["a\nb"], ["c"]);
    assert ["a\nb"] + ["c"] == ["a\nb", "c"];
  }

  /** Whether a text holds no newline. */
  predicate OneLine(s: string) {
    forall i :: 0 <= i < |s| ==> s[i] != '\n'
  }

  /**
   * `text.split("\n")`: the lines hold no newline, and joining them gives
   * the text back. It undoes `Join` only for paragraphs without line breaks
   * (`SplitJoin`); a paragraph holding a newline is split in two.
   */
  function Split(text: string): (lines: seq<string>)
    ensures |lines| >= 1
    ensures forall k :: 0 <= k < |lines| ==> OneLine(lines[k])
    ensures Join(lines) == text
  {
    if text == [] then [""]
    else
      var rest := Split(text[1..]);
      if text[0] == '\n' then
        assert Join([""] + rest) == "" + "\n" + Join(rest) by {
          assert ([""] + rest)[1..] == rest;
        }
        [""] + rest
      else
        var first := [text[0]] + rest[0];
        assert OneLine(first) by {
          forall i | 0 <= i < |first| ensures first[i] != '\n' {
            if i > 0 { assert first[i] == rest[0][i - 1]; }
          }
        }
        assert ([first] + rest[1..])[1..] == rest[1..];
        assert |rest| > 1 ==> Join(rest) == rest[0] + "\n" + Join(rest[1..]);
        [first] + rest[1..]
  }

  lemma {:induction false} SplitOneLinePrefix(line: string, tail: string)
    requires OneLine(line)
    ensures Split(line + tail) == [line + Split(tail)[0]] + Split(tail)[1..]
    decreases |line|
  {
    if line != [] {
      var s := Split(tail);
      var text := line + tail;
      assert text[0] == line[0] && text[0] != '\n';
      assert text[1..] == line[1..] + tail;
      assert OneLine(line[1..]) by {
        forall i | 0 <= i < |line[1..]| ensures line[1..][i] != '\n' {
          assert line[1..][i] == line[i + 1];
        }
      }
      SplitOneLinePrefix(line[1..], tail);
      var rest := Split(text[1..]);
      assert rest == [line[1..] + s[0]] + s[1..];
      assert rest[0] == line[1..] + s[0] && rest[1..] == s[1..];
      assert Split(text) == [[text[0]] + rest[0]] + rest[1..];
      assert [line[0]] + (line[1..] + s[0]) == line + s[0];
    } else {
      var s := Split(tail);
      assert line + tail == tail;
      assert line + s[0] == s[0];
      assert s == [s[0]] + s[1..];
    }
  }

  /** Joining paragraphs that hold no newline and splitting the result gives back every paragraph, empty ones included. */
  lemma {:induction false} SplitJoin(lines: seq<string>)
    requires |lines| >= 1
    requires forall k :: 0 <= k < |lines| ==> OneLine(lines[k])
    ensures Split(Join(lines)) == lines
    decreases |lines|
  {
    if |lines| == 1 {
      SplitOneLinePrefix(lines[0], "");
      assert lines[0] + "" == lines[0];
    } else {
      var rest := lines[1..];
      SplitJoin(rest);
      assert lines[0] + "\n" + Join(rest) == lines[0] + ("\n" + Join(rest));
      SplitOneLinePrefix(lines[0], "\n" + Join(rest));
      assert ("\n" + Join(rest))[1..] == Join(rest);
      assert Split("\n" + Join(rest)) == [""] + rest;
      assert lines[0] + "" == lines[0];
      assert lines == [lines[0]] + rest;
    }
  }

  /** `extract_text_from_docx`, given the paragraph texts or `None` when `Document` or reading failed. */
  function ExtractTextFromDocx(paragraphs: Option<seq<string>>): (text: string)
    ensures paragraphs.None? ==> text == ""
    ensures paragraphs.Some? ==> text == Join(paragraphs.value)
  {
    match paragraphs
    case None => ""
    case Some(lines) => Join(lines)
  }

  /** Paragraphs `Hello`, empty, `World` read as "Hello\n\nWorld"; no paragraphs and a failed read give "". */
  lemma DocxExamples()
    ensures ExtractTextFromDocx(Some(["Hello", "", "World"])) == "Hello\n\nWorld"
    ensures ExtractTextFromDocx(Some([])) == ""
    ensures ExtractTextFromDocx(None) == ""
  {
    assert ["Hello", "", "World"][1..] == ["", "World"];
    assert ["", "World"][1..] == ["World"];
  }

  // ---------------------------------------------------------------------
  // TXT: `open(path, 'r', encoding='utf-8').read()` (`extract_text_from_txt`)
  // ---------------------------------------------------------------------

  /**
   * The universal-newline translation of a file opened in text mode:
   * "\r\n" and a lone "\r" each become "\n".
   */
  function TranslateNewlines(s: string): (r: string)
    ensures forall i :: 0 <= i < |r| ==> r[i] != '\r'
    ensures |r| <= |s|
    ensures (forall i :: 0 <= i < |s| ==> s[i] != '\r') ==> r == s
  {
    if s == [] then []
    else if s[0] == '\r' then
      if |s| > 1 && s[1] == '\n' then ['\n'] + TranslateNewlines(s[2..])
      else ['\n'] + TranslateNewlines(s[1..])
    else
      assert (forall i :: 0 <= i < |s| ==> s[i] != '\r') ==>
        (forall i :: 0 <= i < |s[1..]| ==> s[1..][i] != '\r');
      [s[0]] + TranslateNewlines(s[1..])
  }

  /** Reading a text already read back gives the same text. */
  lemma TranslateNewlinesIdempotent(s: string)
    ensures TranslateNewlines(TranslateNewlines(s)) == TranslateNewlines(s)
  {
  }

  /** After text without carriage returns, "\r\n" reads as one "\n" and the text before it is kept. */
  lemma {:induction false} TranslateCRLF(a: string, b: string)
    requires forall i :: 0 <= i < |a| ==> a[i] != '\r'
    ensures TranslateNewlines(a + "\r\n" + b) == a + "\n" + TranslateNewlines(b)
    decreases |a|
  {
    if a == [] {
      var s := a + "\r\n" + b;
      assert s == "\r\n" + b && s[2..] == b;
    } else {
      var t, x := a[1..], TranslateNewlines(b);
      assert forall i :: 0 <= i < |t| ==> t[i] == a[i + 1];
      TranslateCRLF(t, b);
      ConsOfAppend(a, "\r\n", b);
      ConsOfAppend(a, "\n", x);
    }
  }

  /** After text without carriage returns, a "\r" not followed by "\n" reads as one "\n". */
  lemma {:induction false} TranslateLoneCR(a: string, b: string)
    requires forall i :: 0 <= i < |a| ==> a[i] != '\r'
    requires b == [] || b[0] != '\n'
    ensures TranslateNewlines(a + "\r" + b) == a + "\n" + TranslateNewlines(b)
    decreases |a|
  {
    if a == [] {
      var s := a + "\r" + b;
      assert s == "\r" + b && s[1..] == b;
    } else {
      var t, x := a[1..], TranslateNewlines(b);
      assert forall i :: 0 <= i < |t| ==> t[i] == a[i + 1];
      TranslateLoneCR(t, b);
      ConsOfAppend(a, "\r", b);
      ConsOfAppend(a, "\n", x);
    }
  }

  /**
   * `extract_text_from_txt`, given the decoded file content, or `None` when
   * opening the file or decoding it as UTF-8 failed.
   */
  function ExtractTextFromTxt(decoded: Option<string>): (text: string)
    ensures decoded.None? ==> text == ""
    ensures decoded.Some? ==> text == TranslateNewlines(decoded.value)
  {
    match decoded
    case None => ""
    case Some(content) => TranslateNewlines(content)
  }

  /** Text without carriage returns is returned exactly as decoded. */
  lemma TxtVerbatimExample()
    ensures ExtractTextFromTxt(Some("line1\nline2")) == "line1\nline2"
  {
    var s := "line1\nline2";
    assert forall i :: 0 <= i < |s| ==> s[i] != '\r';
  }

  /** Windows and old Mac line ends are read back as "\n". */
  lemma TxtNewlineExample()
    ensures ExtractTextFromTxt(Some("a\r\nb\rc")) == "a\nb\nc"
  {
    assert TranslateNewlines("c") == "c" by {
      assert "c"[0] != '\r';
    }
    var t := "\rc";
    assert t[0] == '\r' && t[1] != '\n' && t[1..] == "c";
    assert TranslateNewlines(t) == "\nc";
    var u := "b\rc";
    assert u[0] != '\r' && u[1..] == t;
    assert TranslateNewlines(u) == "b\nc";
    var v := "\r\nb\rc";
    assert v[0] == '\r' && v[1] == '\n' && v[2..] == u;
    assert TranslateNewlines(v) == "\nb\nc";
    var w := "a\r\nb\rc";
    assert w[0] != '\r' && w[1..] == v;
  }

  // ---------------------------------------------------------------------
  // Images: `Image.open` then OCR (`ocr_from_image`)
  // ---------------------------------------------------------------------

  /** `ocr_from_image`, given the OCR text, or `None` when opening the image or OCR failed. */
  function OcrFromImage(recognized: Option<string>): (text: string)
    ensures recognized.Some? ==> text == recognized.value
    ensures recognized.None? ==> text == ""
  {
    recognized.GetOr("")
  }
}
