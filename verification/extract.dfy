/** Text extraction (app.py:28-58 and the dispatch at app.py:85-99).

    The document libraries are not modelled. What each one makes of the uploaded bytes
    is an input: a `Readings` value holds, per library, either what it returned or the
    message of the exception it raised. The model states how the script assembles those
    outputs into the stored text and how it labels failures. */
module Extract {
  import opened Wrappers
  import opened Strings

  const PdfType := "application/pdf"
  const ExcelType := "application/vnd.openxmlformats-officedocument.spreadsheetml.sheet"
  const CsvType := "text/csv"
  const PptType := "application/vnd.openxmlformats-officedocument.presentationml.presentation"
  const JpegType := "image/jpeg"
  const PngType := "image/png"

  const UnsupportedText := "Unsupported file type for text extraction."
  const DispatchFailedLabel := "Text extraction failed: "
  const ImageFailedLabel := "Image text extraction failed: "
  const PptFailedLabel := "PPT text extraction failed: "

  /** The extraction branch a declared media type selects. */
  datatype MediaKind = Pdf | Excel | Csv | Presentation | Image | Unsupported

  /** The media types the script recognises, and the branch each selects. */
  const MediaTable: map<string, MediaKind> := map[
    PdfType := Pdf,
    ExcelType := Excel,
    CsvType := Csv,
    PptType := Presentation,
    JpegType := Image,
    PngType := Image
  ]

  /** A parsed sheet, as the spreadsheet and CSV readers hand it to the renderer. */
  datatype Frame = Frame(columns: seq<string>, rows: seq<seq<string>>)

  /** One slide: its shapes in order, each with its text, or `None` when the shape has
      no `text` attribute. */
  type Slide = seq<Option<string>>

  /** What each library makes of the uploaded bytes. */
  datatype Readings = Readings(
    pdfPages: Outcome<seq<string>>,   // fitz.open, then page.get_text() per page
    excelFrame: Outcome<Frame>,       // pd.read_excel
    csvFrame: Outcome<Frame>,         // pd.read_csv
    slides: Outcome<seq<Slide>>,      // Presentation(...).slides
    ocrText: Outcome<string>          // Image.open, then pytesseract.image_to_string
  )

  /** The if/elif chain of app.py:86-97: exact string comparison, in source order. */
  function Classify(mediaType: string): (k: MediaKind)
    ensures k == Unsupported <==> mediaType !in MediaTable
    ensures mediaType in MediaTable ==> k == MediaTable[mediaType]
  {
    if mediaType == PdfType then Pdf
    else if mediaType == ExcelType then Excel
    else if mediaType == CsvType then Csv
    else if mediaType == PptType then Presentation
    else if mediaType == JpegType || mediaType == PngType then Image
    else Unsupported
  }

  /** `extract_text_from_pdf` (app.py:30): the page texts joined by newlines. */
  function PdfText(pages: seq<string>): (r: string)
    ensures |pages| >= 1 ==> multiset(r)['\n'] == multiset(Concat(pages))['\n'] + |pages| - 1
  {
    if |pages| >= 1 then JoinSeparatorCount(pages, '\n'); Join("\n", pages)
    else Join("\n", pages)
  }

  /** What one shape adds (app.py:54-55): its text and a newline, if it has text. */
  function ShapeText(shape: Option<string>): string {
    match shape
    case Some(t) => t + "\n"
    case None => ""
  }

  /** The text of the shapes of one slide, in order. */
  function SlideText(shapes: Slide): string {
    if |shapes| == 0 then "" else SlideText(shapes[..|shapes| - 1]) + ShapeText(shapes[|shapes| - 1])
  }

  /** The text of a presentation: the slides' texts, in order. */
  function PptText(slides: seq<Slide>): string {
    if |slides| == 0 then "" else PptText(slides[..|slides| - 1]) + SlideText(slides[|slides| - 1])
  }

  /** The loops of `extract_text_from_ppt` (app.py:51-56): the text grows slide by slide. */
  method CollectPptText(slides: seq<Slide>) returns (text: string)
    ensures text == PptText(slides)
  {
    text := "";
    var i := 0;
    while i < |slides|
      invariant 0 <= i <= |slides|
      invariant text == PptText(slides[..i])
    {
      text := AppendSlideText(text, slides[i]);
      assert slides[..i + 1][..i] == slides[..i];
      i := i + 1;
    }
    assert slides[..i] == slides;
  }

  /** The inner loop of app.py:53-55: `text += shape.text + "\n"` for each shape with text. */
  method AppendSlideText(text: string, shapes: Slide) returns (text': string)
    ensures text' == text + SlideText(shapes)
  {
    text' := text;
    var j := 0;
    while j < |shapes|
      invariant 0 <= j <= |shapes|
      invariant text' == text + SlideText(shapes[..j])
    {
      assert shapes[..j + 1][..j] == shapes[..j];
      assert SlideText(shapes[..j + 1]) == SlideText(shapes[..j]) + ShapeText(shapes[j]);
      match shapes[j] {
        case Some(t) =>
          text' := text' + (t + "\n");
        case None =>
      }
      j := j + 1;
    }
    assert shapes[..j] == shapes;
  }

  /** `extract_text_from_ppt` (app.py:48-58): a reader failure becomes a labelled message. */
  function PptResult(slides: Outcome<seq<Slide>>): (r: string)
    ensures slides.Returned? ==> r == Terminated(AllShapeTexts(slides.value))
    ensures slides.Raised? ==> r == PptFailedLabel + slides.message
  {
    match slides
    case Returned(s) =>
      PptTextTerminated(s);
      PptText(s)
    case Raised(m) => PptFailedLabel + m
  }

  /** `extract_text_from_image` (app.py:40-46): a reader or OCR failure becomes a
      labelled message. */
  function ImageResult(ocr: Outcome<string>): (r: string)
    ensures ocr.Raised? ==> r == ImageFailedLabel + ocr.message
  {
    match ocr
    case Returned(t) => t
    case Raised(m) => ImageFailedLabel + m
  }

  /** The `try` around the dispatch (app.py:85-99): the PDF and table readers do not
      catch, so their failures reach the outer handler. `render` is the frame renderer
      `DataFrame.to_string(index=False)`. */
  function ExtractText(mediaType: string, readings: Readings, render: Frame -> string): (r: string)
    ensures mediaType !in MediaTable ==> r == UnsupportedText
    ensures RaisedMessage(Classify(mediaType), readings).Some? ==>
              r == FailureLabel(Classify(mediaType)) + RaisedMessage(Classify(mediaType), readings).value
  {
    match Classify(mediaType)
    case Pdf =>
      (match readings.pdfPages
       case Returned(pages) => PdfText(pages)
       case Raised(m) => DispatchFailedLabel + m)
    case Excel =>
      (match readings.excelFrame
       case Returned(f) => render(f)
       case Raised(m) => DispatchFailedLabel + m)
    case Csv =>
      (match readings.csvFrame
       case Returned(f) => render(f)
       case Raised(m) => DispatchFailedLabel + m)
    case Presentation => PptResult(readings.slides)
    case Image => ImageResult(readings.ocrText)
    case Unsupported => UnsupportedText
  }

  /** The label a failure of the selected branch is reported under. */
  function FailureLabel(k: MediaKind): string {
    match k
    case Presentation => PptFailedLabel
    case Image => ImageFailedLabel
    case _ => DispatchFailedLabel
  }

  /** The exception message of the library the branch `k` calls, if it raised. */
  function RaisedMessage(k: MediaKind, readings: Readings): Option<string> {
    match k
    case Pdf => if readings.pdfPages.Raised? then Some(readings.pdfPages.message) else None
    case Excel => if readings.excelFrame.Raised? then Some(readings.excelFrame.message) else None
    case Csv => if readings.csvFrame.Raised? then Some(readings.csvFrame.message) else None
    case Presentation => if readings.slides.Raised? then Some(readings.slides.message) else None
    case Image => if readings.ocrText.Raised? then Some(readings.ocrText.message) else None
    case Unsupported => None
  }

  /** Two readings agree on everything the branch `k` looks at. */
  predicate AgreeOn(k: MediaKind, r1: Readings, r2: Readings) {
    match k
    case Pdf => r1.pdfPages == r2.pdfPages
    case Excel => r1.excelFrame == r2.excelFrame
    case Csv => r1.csvFrame == r2.csvFrame
    case Presentation => r1.slides == r2.slides
    case Image => r1.ocrText == r2.ocrText
    case Unsupported => true
  }

  /** The stored text depends only on the library the declared type selects: what the
      other libraries would make of the bytes is never consulted. */
  lemma OnlySelectedReaderMatters(mediaType: string, r1: Readings, r2: Readings, render: Frame -> string)
    requires AgreeOn(Classify(mediaType), r1, r2)
    ensures ExtractText(mediaType, r1, render) == ExtractText(mediaType, r2, render)
  {
  }

  /** `image/jpeg` and `image/png` share one branch. */
  lemma ImageTypesShareBranch(readings: Readings, render: Frame -> string)
    ensures ExtractText(JpegType, readings, render) == ExtractText(PngType, readings, render)
    ensures ExtractText(JpegType, readings, render) == ImageResult(readings.ocrText)
  {
  }

  /** A spreadsheet and a CSV file that parse to the same frame are stored as the same
      text. */
  lemma TablesRenderAlike(r1: Readings, r2: Readings, render: Frame -> string)
    requires r1.excelFrame == r2.csvFrame
    ensures ExtractText(ExcelType, r1, render) == ExtractText(CsvType, r2, render)
  {
  }

  /** The stored text alone cannot tell a failure from a success: an image whose OCR
      text happens to read like the failure message is stored exactly like an image
      whose decoding raised. */
  lemma FailureLooksLikeText(render: Frame -> string)
    ensures exists r1: Readings, r2: Readings ::
              && r1.ocrText.Raised?
              && r2.ocrText.Returned?
              && ExtractText(JpegType, r1, render) == ExtractText(JpegType, r2, render)
  {
    var r1 := Readings(Raised(""), Raised(""), Raised(""), Raised(""), Raised("x"));
    var r2 := r1.(ocrText := Returned(ImageFailedLabel + "x"));
    assert ExtractText(JpegType, r1, render) == ExtractText(JpegType, r2, render);
  }

  /** A readable presentation is stored as its shape texts, each followed by a
      newline; a spreadsheet or CSV file that parses is stored as its rendered frame;
      an image whose OCR succeeds is stored as the OCR text. */
  lemma SuccessBranches(mediaType: string, readings: Readings, render: Frame -> string)
    ensures Classify(mediaType) == Presentation && readings.slides.Returned? ==>
              ExtractText(mediaType, readings, render) == Terminated(AllShapeTexts(readings.slides.value))
    ensures Classify(mediaType) == Excel && readings.excelFrame.Returned? ==>
              ExtractText(mediaType, readings, render) == render(readings.excelFrame.value)
    ensures Classify(mediaType) == Csv && readings.csvFrame.Returned? ==>
              ExtractText(mediaType, readings, render) == render(readings.csvFrame.value)
    ensures Classify(mediaType) == Image && readings.ocrText.Returned? ==>
              ExtractText(mediaType, readings, render) == readings.ocrText.value
  {
    if readings.slides.Returned? {
      PptTextTerminated(readings.slides.value);
    }
  }

  /** A PDF that opens is stored as its page texts joined by newlines. */
  lemma PdfBranch(readings: Readings, render: Frame -> string)
    requires readings.pdfPages.Returned?
    ensures ExtractText(PdfType, readings, render) == PdfText(readings.pdfPages.value)
  {
  }

  /** No pages give the empty text, one page gives its text unchanged. */
  lemma PdfFewPages(page: string)
    ensures PdfText([]) == ""
    ensures PdfText([page]) == page
  {
  }

  /** `N >= 1` pages are joined with exactly `N - 1` newline separators. */
  lemma PdfSeparators(pages: seq<string>)
    requires |pages| >= 1
    ensures multiset(PdfText(pages))['\n'] == multiset(Concat(pages))['\n'] + |pages| - 1
  {
    JoinSeparatorCount(pages, '\n');
  }

  /** When no page text contains a newline, splitting the stored text at newlines gives
      back the pages, in page order. */
  lemma PdfPagesRecovered(pages: seq<string>)
    requires |pages| >= 1
    requires forall k :: 0 <= k < |pages| ==> '\n' !in pages[k]
    ensures Split(PdfText(pages), '\n') == pages
  {
    SplitJoin(pages, '\n');
  }

  /** The texts of the shapes of one slide that have text, in order. */
  function ShapeTexts(shapes: Slide): seq<string> {
    if |shapes| == 0 then []
    else ShapeTexts(shapes[..|shapes| - 1])
         + (match shapes[|shapes| - 1] case Some(t) => [t] case None => [])
  }

  /** The texts of all shapes with text, slide by slide and shape by shape. */
  function AllShapeTexts(slides: seq<Slide>): seq<string> {
    if |slides| == 0 then [] else AllShapeTexts(slides[..|slides| - 1]) + ShapeTexts(slides[|slides| - 1])
  }

  lemma {:induction false} SlideTextTerminated(shapes: Slide)
    ensures SlideText(shapes) == Terminated(ShapeTexts(shapes))
  {
    if |shapes| > 0 {
      var init := shapes[..|shapes| - 1];
      SlideTextTerminated(init);
      var last := match shapes[|shapes| - 1] case Some(t) => [t] case None => [];
      TerminatedAppend(ShapeTexts(init), last);
      if shapes[|shapes| - 1].Some? {
        assert Terminated(last) == Terminated([]) + last[0] + "\n";
      }
    }
  }

  /** The stored presentation text is every shape text followed by a newline, slide by
      slide and shape by shape; shapes without text add nothing. */
  lemma {:induction false} PptTextTerminated(slides: seq<Slide>)
    ensures PptText(slides) == Terminated(AllShapeTexts(slides))
  {
    if |slides| > 0 {
      var init := slides[..|slides| - 1];
      PptTextTerminated(init);
      SlideTextTerminated(slides[|slides| - 1]);
      TerminatedAppend(AllShapeTexts(init), ShapeTexts(slides[|slides| - 1]));
    }
  }

  /** A presentation with no text-bearing shape is stored as the empty text. */
  lemma PptWithoutText(slides: seq<Slide>)
    requires AllShapeTexts(slides) == []
    ensures PptText(slides) == ""
  {
    PptTextTerminated(slides);
  }

  /** When no shape text contains a newline, splitting the stored text at newlines gives
      back the shape texts in slide-then-shape order, followed by the empty piece after
      the final newline. */
  lemma PptLinesRecovered(slides: seq<Slide>)
    requires forall k :: 0 <= k < |AllShapeTexts(slides)| ==> '\n' !in AllShapeTexts(slides)[k]
    ensures Split(PptText(slides), '\n') == AllShapeTexts(slides) + [""]
  {
    PptTextTerminated(slides);
    SplitTerminated(AllShapeTexts(slides));
  }

  /** Two slides holding one text shape each, "Hi" and "Bye". */
  lemma TwoSlideExample()
    ensures PptText([[Some("Hi")], [Some("Bye")]]) == "Hi\nBye\n"
  {
    var slides: seq<Slide> := [[Some("Hi")], [Some("Bye")]];
    assert slides[..1] == [[Some("Hi")]];
    assert slides[..1][..0] == [];
    assert [Some("Hi")][..0] == [];
    assert SlideText([Some("Hi")]) == "Hi\n";
    assert SlideText([Some("Bye")]) == "Bye\n";
  }
}
