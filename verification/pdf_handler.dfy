/**
 * Document loading: routing a path to the PDF reader or the plain-text reader
 * by its lower-cased extension, and assembling a PDF's text from its pages.
 * Every failure is reported as `None`; nothing is raised to the caller.
 */
module PdfHandler {
  import opened Wrappers
  import opened Text
  import opened Paths

  /** The two exception families the PDF path tells apart (both end in `None`). */
  datatype ReadError = PdfReadError(message: string) | OtherError(message: string)

  /** The file system and the PDF parser, as the loader observes them. */
  datatype Files = Files(
    /** `os.path.exists`. */
    pathExists: string -> bool,
    /** The text of every page of the PDF at a path, in page order, or the
        exception opening or parsing it raised. */
    pdfPages: string -> Result<seq<string>, ReadError>,
    /** The UTF-8 contents of the file at a path, or the exception raised. */
    readText: string -> Result<string, ReadError>)

  const PageSeparator: string := "\n\n"

  /** The text of a PDF: each page's text followed by a blank line, in page
      order. Its length is the sum of the page lengths plus two per page, and
      it ends in the separator whenever there is a page. */
  function ConcatPages(pages: seq<string>): (text: string)
    ensures |text| == TotalLength(pages) + 2 * |pages|
    ensures |pages| > 0 ==> text[|text| - 2..] == PageSeparator
  {
    if |pages| == 0 then ""
    else ConcatPages(pages[..|pages| - 1]) + PageText(pages[|pages| - 1])
  }

  /** One page's contribution: its text and a blank line. */
  function PageText(page: string): string {
    page + PageSeparator
  }

  /** Page assembly distributes over splitting the page list. */
  lemma {:induction false} ConcatPagesAppend(a: seq<string>, b: seq<string>)
    ensures ConcatPages(a + b) == ConcatPages(a) + ConcatPages(b)
    decreases |b|
  {
    if |b| == 0 {
      assert a + b == a;
    } else {
      var init, last := b[..|b| - 1], b[|b| - 1];
      assert (a + b)[..|a + b| - 1] == a + init;
      assert (a + b)[|a + b| - 1] == last;
      ConcatPagesAppend(a, init);
      SeqAssociative(ConcatPages(a), ConcatPages(init), PageText(last));
    }
  }

  lemma SeqAssociative(x: string, y: string, z: string)
    ensures x + y + z == x + (y + z)
  {
  }

  /** Page `i` followed by a blank line sits right after the text of the pages
      before it: the pages appear whole and in order. */
  lemma PageInPlace(pages: seq<string>, i: nat)
    requires i < |pages|
    ensures OccursAt(pages[i] + PageSeparator, ConcatPages(pages), |ConcatPages(pages[..i])|)
  {
    var before, page, after := pages[..i], [pages[i]], pages[i + 1..];
    assert pages == before + page + after;
    ConcatPagesAppend(before + page, after);
    ConcatPagesAppend(before, page);
    assert page[..0] == [];
    assert ConcatPages(page) == PageText(pages[i]);
    var x, y, z := ConcatPages(before), ConcatPages(page), ConcatPages(after);
    assert ConcatPages(pages) == x + y + z;
    OccursInContext(y, x, y, z, 0);
  }

  /** A PDF's text is empty exactly when it has no pages. */
  lemma ConcatPagesEmptyIff(pages: seq<string>)
    ensures ConcatPages(pages) == "" <==> |pages| == 0
  {
  }

  /** `extract_text_from_pdf`: `None` for a missing path, checked before any
      parsing, and `None` for any exception while reading; otherwise the
      assembled page text. */
  function ExtractTextFromPdf(path: string, files: Files): (r: Option<string>)
    ensures !files.pathExists(path) ==> r == None
    ensures files.pathExists(path) && files.pdfPages(path).Failure? ==> r == None
    ensures files.pathExists(path) && files.pdfPages(path).Success? ==>
              r == Some(ConcatPages(files.pdfPages(path).value))
  {
    if !files.pathExists(path) then None
    else match files.pdfPages(path)
      case Success(pages) => Some(ConcatPages(pages))
      case Failure(_) => None
  }

  /** Which reader `load_document` hands a path to. */
  datatype DocumentKind = PdfDocument | TextDocument | Unsupported

  /** The lower-cased splitext extension decides the reader, so `.pdf` and
      `.txt` are recognised in any mix of cases. */
  function Route(path: string): (kind: DocumentKind)
    ensures kind == PdfDocument <==> CaseVariant(Extension(path), ".pdf")
    ensures kind == TextDocument <==> CaseVariant(Extension(path), ".txt")
  {
    assert NoUpperCase(".pdf") && NoUpperCase(".txt");
    LowerIsCaseVariant(Extension(path), ".pdf");
    LowerIsCaseVariant(Extension(path), ".txt");
    var ext := Lower(Extension(path));
    if ext == ".pdf" then PdfDocument
    else if ext == ".txt" then TextDocument
    else Unsupported
  }

  /** `load_document`: PDFs go to the page extractor and text files to a plain
      read; any other extension yields `None` whatever the file system holds,
      so no file is opened. Read failures become `None`. */
  function LoadDocument(path: string, files: Files): (r: Option<string>)
    ensures Route(path) == PdfDocument ==> r == ExtractTextFromPdf(path, files)
    ensures Route(path) == TextDocument ==>
              (files.readText(path).Success? ==> r == Some(files.readText(path).value))
              && (files.readText(path).Failure? ==> r == None)
    ensures Route(path) == Unsupported ==> r == None
  {
    match Route(path)
    case PdfDocument => ExtractTextFromPdf(path, files)
    case TextDocument =>
      (match files.readText(path)
       case Success(text) => Some(text)
       case Failure(_) => None)
    case Unsupported => None
  }

  /** A suffix-only description of an extension: a dot followed by lower-case
      ASCII letters, as `.pdf` and `.txt` are. */
  predicate IsPlainExtension(e: string) {
    |e| >= 1 && e[0] == '.' && forall i :: 1 <= i < |e| ==> 'a' <= e[i] <= 'z'
  }

  /** A path's lower-cased extension is `e` exactly when the path ends in a
      case variant of `e` and the final component has something other than
      dots before it. */
  lemma ExtensionMatchesSuffix(p: string, e: string)
    requires IsPlainExtension(e)
    ensures Lower(Extension(p)) == e <==>
              |p| >= |e| && CaseVariant(p[|p| - |e|..], e) && HasStem(p, |p| - |e|)
  {
    if Lower(Extension(p)) == e {
      MatchedExtensionIsSuffix(p, e);
    }
    if |p| >= |e| && CaseVariant(p[|p| - |e|..], e) && HasStem(p, |p| - |e|) {
      SuffixIsMatchedExtension(p, e);
    }
  }

  lemma MatchedExtensionIsSuffix(p: string, e: string)
    requires IsPlainExtension(e) && Lower(Extension(p)) == e
    ensures |p| >= |e| && CaseVariant(p[|p| - |e|..], e) && HasStem(p, |p| - |e|)
  {
    var ext := Extension(p);
    assert |ext| == |e| > 0;
    ExtensionSound(p);
    assert ExtStart(p, |p| - |e|);
    assert ext == p[|p| - |e|..] by {
      assert SplitExt(p).0 + ext == p;
    }
    assert NoUpperCase(e);
    LowerIsCaseVariant(ext, e);
  }

  lemma SuffixIsMatchedExtension(p: string, e: string)
    requires IsPlainExtension(e)
    requires |p| >= |e| && CaseVariant(p[|p| - |e|..], e) && HasStem(p, |p| - |e|)
    ensures Lower(Extension(p)) == e
  {
    var k := |p| - |e|;
    var suffix := p[k..];
    assert suffix[0] == p[k];
    forall i | k < i < |p|
      ensures p[i] != '.' && p[i] != '/'
    {
      assert suffix[i - k] == p[i];
    }
    assert ExtStart(p, k);
    ExtensionComplete(p, k);
    assert Extension(p) == suffix;
    assert NoUpperCase(e);
    LowerIsCaseVariant(suffix, e);
  }

  /** Routing to the PDF reader, stated on the path's spelling alone. */
  lemma RoutesToPdfIff(p: string)
    ensures Route(p) == PdfDocument <==>
              |p| >= 4 && CaseVariant(p[|p| - 4..], ".pdf") && HasStem(p, |p| - 4)
  {
    ExtensionMatchesSuffix(p, ".pdf");
  }

  /** Routing to the text reader, stated on the path's spelling alone. */
  lemma RoutesToTextIff(p: string)
    ensures Route(p) == TextDocument <==>
              |p| >= 4 && CaseVariant(p[|p| - 4..], ".txt") && HasStem(p, |p| - 4)
  {
    ExtensionMatchesSuffix(p, ".txt");
    ExtensionMatchesSuffix(p, ".pdf");
  }

  /** An upper-case extension routes like a lower-case one. */
  lemma UpperCasePdfRoutesToPdf()
    ensures Route("Report.PDF") == PdfDocument
  {
    ExtensionOfMixedCaseName();
    assert Lower(".PDF") == ".pdf";
  }

  lemma TextFileRoutesToText()
    ensures Route("notes.txt") == TextDocument
  {
    var t := "notes.txt";
    assert t[5..] == ".txt";
    assert HasStem(t, 5) by {
      assert t[0] != '.' && NoSlashFrom(t, 0, 5);
    }
    SuffixIsMatchedExtension(t, ".txt");
    assert ".txt"[1] != ".pdf"[1];
  }

  /** A hidden file named `.pdf` has no extension, so it is rejected. */
  lemma HiddenPdfIsUnsupported()
    ensures Route(".pdf") == Unsupported
  {
    HiddenFileExamples();
  }

  lemma UnknownExtensionIsUnsupported()
    ensures Route("slides.pptx") == Unsupported
  {
    var s := "slides.pptx";
    assert ExtStart(s, 6) by {
      assert s[0] != '.' && NoSlashFrom(s, 0, 6);
    }
    ExtensionComplete(s, 6);
  }
}
