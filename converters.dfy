/** The string and sequence work of the converters in backend/converters.py.
    What the libraries compute (rendered page images, extracted page text,
    paragraph text, slide shapes, reportlab's line wrapping) comes in as
    parameters; what is modelled is how the converters assemble it. */
module Converters {
  import opened Common
  import opened PyStr

  type Byte = b: int | 0 <= b < 256

  /** The bytes of an encoded file. */
  type Blob = seq<Byte>

  datatype ZipEntry = ZipEntry(name: string, data: Blob)

  /** What an image converter writes: one image file, or a zip archive. */
  datatype Artifact = SingleFile(ext: string, data: Blob) | ZipArchive(entries: seq<ZipEntry>)

  // ---------------------------------------------------------------------------
  // Zip archives of numbered images (pdf_to_image, pptx_to_images)
  // ---------------------------------------------------------------------------

  /** The name `f"{stem}_{index}.{ext}"` of a numbered zip entry. */
  function EntryName(stem: string, index: nat, ext: string): string
  {
    stem + "_" + Decimal(index) + "." + ext
  }

  /** One entry per payload, numbered from 1 in payload order. */
  function NumberedEntries(stem: string, payloads: seq<Blob>, ext: string): (r: seq<ZipEntry>)
    ensures |r| == |payloads|
  {
    seq(|payloads|, i requires 0 <= i < |payloads| => ZipEntry(EntryName(stem, i + 1, ext), payloads[i]))
  }

  predicate DistinctNames(entries: seq<ZipEntry>)
  {
    forall i, j :: 0 <= i < j < |entries| ==> entries[i].name != entries[j].name
  }

  /** Two entries with different numbers never share a name. */
  lemma EntryNamesDistinct(stem: string, i: nat, j: nat, ext: string)
    requires i != j
    ensures EntryName(stem, i, ext) != EntryName(stem, j, ext)
  {
    var a, t := stem + "_", "." + ext;
    var x, y := Decimal(i), Decimal(j);
    assert EntryName(stem, i, ext) == a + x + t;
    assert EntryName(stem, j, ext) == a + y + t;
    if EntryName(stem, i, ext) == EntryName(stem, j, ext) {
      assert |x| == |y|;
      assert x == (a + x + t)[|a|..|a| + |x|];
      assert y == (a + y + t)[|a|..|a| + |y|];
      DecimalInjective(i, j);
      assert false;
    }
  }

  /** The names of a numbered archive are pairwise different. */
  lemma NumberedEntriesDistinct(stem: string, payloads: seq<Blob>, ext: string)
    ensures DistinctNames(NumberedEntries(stem, payloads, ext))
  {
    var entries := NumberedEntries(stem, payloads, ext);
    forall i, j | 0 <= i < j < |entries|
      ensures entries[i].name != entries[j].name
    {
      EntryNamesDistinct(stem, i + 1, j + 1, ext);
    }
  }

  /** pdf_to_image: a one-page document becomes a single image; any other page
      count becomes a zip of `page_1.<fmt>` ... `page_n.<fmt>` in page order.
      `pageImages` are the pages as the imaging library encodes them. */
  method PdfToImage(pageImages: seq<Blob>, imageFormat: string) returns (out: Artifact)
    ensures |pageImages| == 1 ==> out == SingleFile(imageFormat, pageImages[0])
    ensures |pageImages| != 1 ==> out == ZipArchive(NumberedEntries("page", pageImages, imageFormat))
    ensures out.ZipArchive? ==> |out.entries| == |pageImages| && DistinctNames(out.entries)
  {
    if |pageImages| == 1 {
      return SingleFile(imageFormat, pageImages[0]);
    }
    var entries: seq<ZipEntry> := [];
    var i := 0;
    while i < |pageImages|
      invariant 0 <= i <= |pageImages|
      invariant entries == NumberedEntries("page", pageImages[..i], imageFormat)
    {
      entries := entries + [ZipEntry(EntryName("page", i + 1, imageFormat), pageImages[i])];
      i := i + 1;
    }
    assert pageImages[..i] == pageImages;
    NumberedEntriesDistinct("page", pageImages, imageFormat);
    out := ZipArchive(entries);
  }

  /** pptx_to_images: always a zip with `slide_1.<fmt>` ... `slide_n.<fmt>`, one
      entry per slide, each holding the same blank placeholder image. */
  method PptxToImages(slideCount: nat, imageFormat: string, placeholder: Blob) returns (out: Artifact)
    ensures out == ZipArchive(NumberedEntries("slide", seq(slideCount, _ => placeholder), imageFormat))
    ensures |out.entries| == slideCount && DistinctNames(out.entries)
  {
    ghost var payloads := seq(slideCount, _ => placeholder);
    var entries: seq<ZipEntry> := [];
    var i := 0;
    while i < slideCount
      invariant 0 <= i <= slideCount
      invariant entries == NumberedEntries("slide", payloads[..i], imageFormat)
    {
      entries := entries + [ZipEntry(EntryName("slide", i + 1, imageFormat), placeholder)];
      i := i + 1;
    }
    assert payloads[..i] == payloads;
    NumberedEntriesDistinct("slide", payloads, imageFormat);
    out := ZipArchive(entries);
  }

  // ---------------------------------------------------------------------------
  // Text extraction and HTML wrapping
  // ---------------------------------------------------------------------------

  /** Python's truth test on a string. */
  predicate NonEmpty(s: string)
  {
    s != ""
  }

  /** `paragraph.text.strip()` is non-empty. */
  predicate HasText(s: string)
  {
    !IsBlank(s)
  }

  const PdfHtmlHead: string :=
    "<!DOCTYPE html>\n<html>\n<head>\n    <meta charset=\"UTF-8\">\n    <title>Converted PDF</title>\n"
    + "    <style>\n        body { font-family: Arial, sans-serif; padding: 20px; }\n"
    + "        .page { margin-bottom: 40px; padding: 20px; border: 1px solid #ccc; }\n"
    + "    </style>\n</head>\n<body>\n    "

  const DocxHtmlHead: string :=
    "<!DOCTYPE html>\n<html>\n<head>\n    <meta charset=\"UTF-8\">\n    <title>Converted Document</title>\n"
    + "    <style>\n        body { font-family: Arial, sans-serif; padding: 20px; max-width: 800px; margin: 0 auto; }\n"
    + "        p { margin: 10px 0; }\n"
    + "    </style>\n</head>\n<body>\n    "

  const TxtHtmlHead: string :=
    "<!DOCTYPE html>\n<html>\n<head>\n    <meta charset=\"UTF-8\">\n    <title>Converted Text</title>\n"
    + "    <style>\n        body { font-family: monospace; padding: 20px; white-space: pre-wrap; }\n"
    + "    </style>\n</head>\n<body>\n"

  const HtmlTail: string := "\n</body>\n</html>"

  /** pdf_to_txt: the non-empty page texts, in page order, joined by a blank line. */
  method PdfToTxt(pageTexts: seq<string>) returns (text: string)
    ensures text == Join("\n\n", Keep(pageTexts, NonEmpty))
  {
    var textContent: seq<string> := [];
    var i := 0;
    while i < |pageTexts|
      invariant 0 <= i <= |pageTexts|
      invariant textContent == Keep(pageTexts[..i], NonEmpty)
    {
      assert pageTexts[..i + 1][..i] == pageTexts[..i];
      if pageTexts[i] != "" {
        textContent := textContent + [pageTexts[i]];
      }
      i := i + 1;
    }
    assert pageTexts[..i] == pageTexts;
    text := Join("\n\n", textContent);
  }

  /** One page of pdf_to_html: its line breaks become `<br>`. */
  function PageDiv(text: string): string
  {
    "<div class='page'>" + ReplaceChar(text, '\n', "<br>") + "</div>"
  }

  /** pdf_to_html: one `<div class='page'>` per non-empty page, in page order. */
  method PdfToHtml(pageTexts: seq<string>) returns (html: string)
    ensures html == PdfHtmlHead + Join("", MapSeq(Keep(pageTexts, NonEmpty), PageDiv)) + HtmlTail
  {
    var textContent: seq<string> := [];
    var i := 0;
    while i < |pageTexts|
      invariant 0 <= i <= |pageTexts|
      invariant textContent == MapSeq(Keep(pageTexts[..i], NonEmpty), PageDiv)
    {
      assert pageTexts[..i + 1][..i] == pageTexts[..i];
      if pageTexts[i] != "" {
        MapSnoc(Keep(pageTexts[..i], NonEmpty), pageTexts[i], PageDiv);
        textContent := textContent + [PageDiv(pageTexts[i])];
      }
      i := i + 1;
    }
    assert pageTexts[..i] == pageTexts;
    html := PdfHtmlHead + Join("", textContent) + HtmlTail;
  }

  /** A page's `<div>` holds no raw line break: every one became `<br>`. */
  lemma PageDivHasNoNewline(text: string)
    ensures '\n' !in ReplaceChar(text, '\n', "<br>")
  {
    ReplaceRemoves(text, '\n', "<br>");
  }

  /** docx_to_txt: every paragraph, in order, one per line. */
  method DocxToTxt(paragraphs: seq<string>) returns (text: string)
    ensures text == Join("\n", paragraphs)
  {
    var textContent: seq<string> := [];
    var i := 0;
    while i < |paragraphs|
      invariant 0 <= i <= |paragraphs|
      invariant textContent == paragraphs[..i]
    {
      textContent := textContent + [paragraphs[i]];
      i := i + 1;
    }
    assert paragraphs[..i] == paragraphs;
    text := Join("\n", textContent);
  }

  /** txt_to_docx: one paragraph per line of the text. */
  method TxtToDocx(text: string) returns (paragraphs: seq<string>)
    ensures paragraphs == Split(text, '\n')
  {
    var lines := Split(text, '\n');
    paragraphs := [];
    var i := 0;
    while i < |lines|
      invariant 0 <= i <= |lines|
      invariant paragraphs == lines[..i]
    {
      paragraphs := paragraphs + [lines[i]];
      i := i + 1;
    }
    assert lines[..i] == lines;
  }

  /** A text survives txt_to_docx followed by docx_to_txt unchanged. */
  lemma TxtDocxTxtRoundTrip(text: string)
    ensures Join("\n", Split(text, '\n')) == text
  {
    JoinSplit(text, '\n');
  }

  /** Paragraphs without line breaks survive docx_to_txt followed by
      txt_to_docx unchanged (a document with no paragraph comes back as one
      empty paragraph). */
  lemma DocxTxtDocxRoundTrip(paragraphs: seq<string>)
    requires forall i :: 0 <= i < |paragraphs| ==> '\n' !in paragraphs[i]
    ensures paragraphs != [] ==> Split(Join("\n", paragraphs), '\n') == paragraphs
    ensures paragraphs == [] ==> Split(Join("\n", paragraphs), '\n') == [""]
  {
    if paragraphs != [] {
      SplitJoin(paragraphs, '\n');
    }
  }

  function ParagraphTag(text: string): string
  {
    "<p>" + text + "</p>"
  }

  /** docx_to_html: one `<p>` per paragraph with visible text, in order. */
  method DocxToHtml(paragraphs: seq<string>) returns (html: string)
    ensures html == DocxHtmlHead + Join("", MapSeq(Keep(paragraphs, HasText), ParagraphTag)) + HtmlTail
  {
    var htmlParts: seq<string> := [];
    var i := 0;
    while i < |paragraphs|
      invariant 0 <= i <= |paragraphs|
      invariant htmlParts == MapSeq(Keep(paragraphs[..i], HasText), ParagraphTag)
    {
      assert paragraphs[..i + 1][..i] == paragraphs[..i];
      if !IsBlank(paragraphs[i]) {
        MapSnoc(Keep(paragraphs[..i], HasText), paragraphs[i], ParagraphTag);
        htmlParts := htmlParts + [ParagraphTag(paragraphs[i])];
      }
      i := i + 1;
    }
    assert paragraphs[..i] == paragraphs;
    html := DocxHtmlHead + Join("", htmlParts) + HtmlTail;
  }

  /** txt_to_html: the text with every line break preceded by `<br>`. */
  function TxtToHtml(text: string): (html: string)
  {
    TxtHtmlHead + ReplaceChar(text, '\n', "<br>\n") + HtmlTail
  }

  /** Every line of the text ends up in the page, each but the last followed by
      `<br>` and a line break. */
  lemma TxtToHtmlBreaksEveryLine(text: string)
    ensures TxtToHtml(text) == TxtHtmlHead + Join("<br>\n", Split(text, '\n')) + HtmlTail
  {
    ReplaceIsJoinOfSplit(text, '\n', "<br>\n");
  }

  // ---------------------------------------------------------------------------
  // Drawing on a reportlab canvas (txt_to_pdf, pptx_to_pdf)
  // ---------------------------------------------------------------------------

  /** A canvas call: draw a string with its left end at (x, y), or end the page. */
  datatype CanvasOp = DrawString(x: int, y: int, text: string) | ShowPage

  /** The texts drawn, in drawing order. */
  function DrawnTexts(ops: seq<CanvasOp>): seq<string>
    decreases |ops|
  {
    if ops == [] then []
    else DrawnTexts(ops[..|ops| - 1]) + (match ops[|ops| - 1]
                                          case DrawString(_, _, t) => [t]
                                          case ShowPage => [])
  }

  /** The number of pages ended. */
  function PageBreaks(ops: seq<CanvasOp>): nat
    decreases |ops|
  {
    if ops == [] then 0
    else PageBreaks(ops[..|ops| - 1]) + (if ops[|ops| - 1].ShowPage? then 1 else 0)
  }

  /** All the lists concatenated in order. */
  function Flatten(xss: seq<seq<string>>): seq<string>
    decreases |xss|
  {
    if xss == [] then [] else Flatten(xss[..|xss| - 1]) + xss[|xss| - 1]
  }

  // txt_to_pdf: a US-letter page (612 x 792 points), a 50-point margin, a
  // 15-point line step.
  const LetterWidth: int := 612
  const LetterHeight: int := 792
  const PageMargin: int := 50
  const TxtTop: int := LetterHeight - PageMargin
  const TxtLineStep: int := 15
  /** How many lines fit on one page: 742, 727, ..., 52. */
  const LinesPerPage: nat := 47

  /** `y_position` after the calls `ops`, starting from the top of a page. */
  function CursorAfter(ops: seq<CanvasOp>): int
  {
    if ops == [] then TxtTop
    else match ops[|ops| - 1]
      case ShowPage => TxtTop
      case DrawString(_, y, _) => y - TxtLineStep
  }

  /** Every string is drawn at the left margin, at the current cursor, never
      below the bottom margin; a page is ended only once the cursor has passed
      the bottom margin. */
  predicate TxtPaginated(ops: seq<CanvasOp>)
  {
    forall k :: 0 <= k < |ops| ==>
      match ops[k]
      case DrawString(x, y, _) =>
        x == PageMargin && PageMargin <= y <= TxtTop && y == CursorAfter(ops[..k])
      case ShowPage => CursorAfter(ops[..k]) < PageMargin
  }

  lemma TxtPaginatedSnoc(ops: seq<CanvasOp>, op: CanvasOp)
    requires TxtPaginated(ops)
    requires op.DrawString? ==> op.x == PageMargin && PageMargin <= op.y <= TxtTop && op.y == CursorAfter(ops)
    requires op.ShowPage? ==> CursorAfter(ops) < PageMargin
    ensures TxtPaginated(ops + [op])
  {
    var ops' := ops + [op];
    forall k | 0 <= k < |ops'|
      ensures ops'[..k] == if k < |ops| then ops[..k] else ops
    {
    }
  }

  lemma TxtPaginatedPrefix(ops: seq<CanvasOp>, n: nat)
    requires TxtPaginated(ops) && n <= |ops|
    ensures TxtPaginated(ops[..n])
  {
    var pre := ops[..n];
    forall k | 0 <= k < n
      ensures pre[..k] == ops[..k]
    {
    }
  }

  lemma CursorBelowTop(ops: seq<CanvasOp>)
    requires TxtPaginated(ops)
    ensures CursorAfter(ops) <= TxtTop
  {
  }

  lemma DrawnTextsSnoc(ops: seq<CanvasOp>, op: CanvasOp)
    ensures DrawnTexts(ops + [op]) == DrawnTexts(ops) + (if op.DrawString? then [op.text] else [])
  {
    assert (ops + [op])[..|ops|] == ops;
  }

  lemma FlattenSnoc(xss: seq<seq<string>>, xs: seq<string>)
    ensures Flatten(xss + [xs]) == Flatten(xss) + xs
  {
    assert (xss + [xs])[..|xss|] == xss;
  }

  /** The pieces of the first `i + 1` lines are those of the first `i` lines
      followed by those of line `i`. */
  lemma FlattenMapStep(lines: seq<string>, i: nat, wrap: string -> seq<string>)
    requires i < |lines|
    ensures Flatten(MapSeq(lines[..i + 1], wrap)) == Flatten(MapSeq(lines[..i], wrap)) + wrap(lines[i])
  {
    assert lines[..i + 1] == lines[..i] + [lines[i]];
    MapSnoc(lines[..i], lines[i], wrap);
    FlattenSnoc(MapSeq(lines[..i], wrap), wrap(lines[i]));
  }

  /** The page-break check of txt_to_pdf: `if y_position < 50: c.showPage();
      y_position = height - 50`. */
  method BreakPageIfFull(ops: seq<CanvasOp>, y: int) returns (ops': seq<CanvasOp>, y': int)
    requires TxtPaginated(ops) && y == CursorAfter(ops) && y <= TxtTop
    ensures TxtPaginated(ops') && y' == CursorAfter(ops') && PageMargin <= y' <= TxtTop
    ensures DrawnTexts(ops') == DrawnTexts(ops)
    ensures ops' == if y < PageMargin then ops + [ShowPage] else ops
  {
    ops', y' := ops, y;
    if y < PageMargin {
      TxtPaginatedSnoc(ops, ShowPage);
      DrawnTextsSnoc(ops, ShowPage);
      ops' := ops + [ShowPage];
      y' := TxtTop;
    }
  }

  /** One piece of a line: end the page if it is full, draw the piece at the
      cursor and move the cursor one line down. */
  method DrawLine(ops: seq<CanvasOp>, y: int, piece: string) returns (ops': seq<CanvasOp>, y': int)
    requires TxtPaginated(ops) && y == CursorAfter(ops) && y <= TxtTop
    ensures TxtPaginated(ops') && y' == CursorAfter(ops') && y' <= TxtTop
    ensures DrawnTexts(ops') == DrawnTexts(ops) + [piece]
  {
    var broken, top := BreakPageIfFull(ops, y);
    var op := DrawString(PageMargin, top, piece);
    TxtPaginatedSnoc(broken, op);
    DrawnTextsSnoc(broken, op);
    ops' := broken + [op];
    y' := top - TxtLineStep;
  }

  /** The inner loop of txt_to_pdf: draw the wrapped pieces of one line. */
  method DrawWrapped(ops: seq<CanvasOp>, y: int, wrapped: seq<string>) returns (ops': seq<CanvasOp>, y': int)
    requires TxtPaginated(ops) && y == CursorAfter(ops) && y <= TxtTop
    ensures TxtPaginated(ops') && y' == CursorAfter(ops') && y' <= TxtTop
    ensures DrawnTexts(ops') == DrawnTexts(ops) + wrapped
  {
    ops', y' := ops, y;
    var j := 0;
    while j < |wrapped|
      invariant 0 <= j <= |wrapped|
      invariant TxtPaginated(ops') && y' == CursorAfter(ops') && y' <= TxtTop
      invariant DrawnTexts(ops') == DrawnTexts(ops) + wrapped[..j]
    {
      ops', y' := DrawLine(ops', y', wrapped[j]);
      assert wrapped[..j + 1] == wrapped[..j] + [wrapped[j]];
      j := j + 1;
    }
    assert wrapped[..j] == wrapped;
  }

  /** txt_to_pdf: each line of the text is wrapped (reportlab's `simpleSplit`,
      the parameter `wrap`) and its pieces are drawn top to bottom, starting a
      new page whenever the cursor falls below the bottom margin. */
  method TxtToPdf(text: string, wrap: string -> seq<string>) returns (ops: seq<CanvasOp>)
    ensures TxtPaginated(ops)
    ensures DrawnTexts(ops) == Flatten(MapSeq(Split(text, '\n'), wrap))
  {
    var lines := Split(text, '\n');
    ops := [];
    var y := TxtTop;
    var i := 0;
    while i < |lines|
      invariant 0 <= i <= |lines|
      invariant TxtPaginated(ops) && y == CursorAfter(ops) && y <= TxtTop
      invariant DrawnTexts(ops) == Flatten(MapSeq(lines[..i], wrap))
    {
      ops, y := BreakPageIfFull(ops, y);
      ops, y := DrawWrapped(ops, y, wrap(lines[i]));
      FlattenMapStep(lines, i, wrap);
      i := i + 1;
    }
    assert lines[..i] == lines;
  }

  /** The lines drawn since the last page break. */
  function DrawsSinceBreak(ops: seq<CanvasOp>): nat
    decreases |ops|
  {
    if ops == [] || ops[|ops| - 1].ShowPage? then 0 else DrawsSinceBreak(ops[..|ops| - 1]) + 1
  }

  /** The cursor sits one line step lower for every line drawn on the page. */
  lemma {:induction false} CursorCountsLines(ops: seq<CanvasOp>)
    requires TxtPaginated(ops)
    ensures CursorAfter(ops) == TxtTop - TxtLineStep * DrawsSinceBreak(ops)
    decreases |ops|
  {
    if ops != [] && ops[|ops| - 1].DrawString? {
      var init := ops[..|ops| - 1];
      TxtPaginatedPrefix(ops, |ops| - 1);
      CursorCountsLines(init);
      assert ops[..|ops| - 1] == init;
    }
  }

  /** The page being filled holds at most 47 lines. */
  lemma PageNotOverfull(ops: seq<CanvasOp>)
    requires TxtPaginated(ops)
    ensures DrawsSinceBreak(ops) <= LinesPerPage
  {
    if ops != [] && ops[|ops| - 1].DrawString? {
      var init := ops[..|ops| - 1];
      TxtPaginatedPrefix(ops, |ops| - 1);
      CursorCountsLines(init);
      assert PageMargin <= CursorAfter(init);
    }
  }

  /** A page is ended only once it holds 47 lines. */
  lemma EndedPageIsFull(ops: seq<CanvasOp>, k: nat)
    requires TxtPaginated(ops) && k < |ops| && ops[k].ShowPage?
    ensures DrawsSinceBreak(ops[..k]) == LinesPerPage
  {
    TxtPaginatedPrefix(ops, k);
    CursorCountsLines(ops[..k]);
    assert CursorAfter(ops[..k]) < PageMargin;
    PageNotOverfull(ops[..k]);
  }

  /** A page of txt_to_pdf holds at most 47 lines, and every page that is ended
      holds exactly 47: no page is broken early. */
  lemma TxtPageCapacity(ops: seq<CanvasOp>)
    requires TxtPaginated(ops)
    ensures DrawsSinceBreak(ops) <= LinesPerPage
    ensures forall k :: 0 <= k < |ops| && ops[k].ShowPage? ==> DrawsSinceBreak(ops[..k]) == LinesPerPage
  {
    PageNotOverfull(ops);
    forall k | 0 <= k < |ops| && ops[k].ShowPage?
      ensures DrawsSinceBreak(ops[..k]) == LinesPerPage
    {
      EndedPageIsFull(ops, k);
    }
  }

  // pptx_to_pdf: a heading at (100, 750), shape texts from y = 700 down in
  // 20-point steps, at most 80 characters each.
  const SlideX: int := 100
  const SlideHeadingY: int := 750
  const SlideBodyTop: int := 700
  const SlideLineStep: int := 20
  const ShapeTextLimit: nat := 80

  /** A shape of a slide; `text` is None when the shape has no `text` attribute. */
  datatype Shape = Shape(text: Option<string>)

  predicate HasTextAttribute(s: Shape)
  {
    s.text.Some?
  }

  /** The calls for the shapes of one slide that carry text. */
  function ShapeOps(shapes: seq<Shape>): seq<CanvasOp>
    decreases |shapes|
  {
    if shapes == [] then []
    else
      var init := shapes[..|shapes| - 1];
      ShapeOps(init) + match shapes[|shapes| - 1].text
        case Some(t) =>
          [DrawString(SlideX, SlideBodyTop - SlideLineStep * |Keep(init, HasTextAttribute)|,
                      Truncate(t, ShapeTextLimit))]
        case None => []
  }

  /** The calls for slide number `number`: heading, shape texts, end of page. */
  function SlideOps(number: nat, shapes: seq<Shape>): seq<CanvasOp>
  {
    [DrawString(SlideX, SlideHeadingY, "Slide " + Decimal(number))] + ShapeOps(shapes) + [ShowPage]
  }

  /** The calls for a whole presentation, slides numbered from 1. */
  function PresentationOps(slides: seq<seq<Shape>>): seq<CanvasOp>
    decreases |slides|
  {
    if slides == [] then []
    else PresentationOps(slides[..|slides| - 1]) + SlideOps(|slides|, slides[|slides| - 1])
  }

  /** The inner loop of pptx_to_pdf: one line per shape that has text. */
  method DrawShapes(shapes: seq<Shape>) returns (ops: seq<CanvasOp>)
    ensures ops == ShapeOps(shapes)
  {
    ops := [];
    var y := SlideBodyTop;
    var j := 0;
    while j < |shapes|
      invariant 0 <= j <= |shapes|
      invariant y == SlideBodyTop - SlideLineStep * |Keep(shapes[..j], HasTextAttribute)|
      invariant ops == ShapeOps(shapes[..j])
    {
      assert shapes[..j + 1][..j] == shapes[..j];
      if shapes[j].text.Some? {
        ops := ops + [DrawString(SlideX, y, Truncate(shapes[j].text.value, ShapeTextLimit))];
        y := y - SlideLineStep;
      }
      j := j + 1;
    }
    assert shapes[..j] == shapes;
  }

  /** pptx_to_pdf. */
  method PptxToPdf(slides: seq<seq<Shape>>) returns (ops: seq<CanvasOp>)
    ensures ops == PresentationOps(slides)
  {
    ops := [];
    var i := 0;
    while i < |slides|
      invariant 0 <= i <= |slides|
      invariant ops == PresentationOps(slides[..i])
    {
      var heading := DrawString(SlideX, SlideHeadingY, "Slide " + Decimal(i + 1));
      var body := DrawShapes(slides[i]);
      ops := ops + [heading] + body + [ShowPage];
      assert slides[..i + 1][..i] == slides[..i];
      i := i + 1;
    }
    assert slides[..i] == slides;
  }

  /** Every shape text is drawn in the slide's body column, at most 80
      characters long, and is the beginning of the shape's text. */
  lemma {:induction false} ShapeTextsTruncated(shapes: seq<Shape>)
    ensures forall op :: op in ShapeOps(shapes) ==>
      op.DrawString? && op.x == SlideX && op.y <= SlideBodyTop && |op.text| <= ShapeTextLimit
    ensures forall op :: op in ShapeOps(shapes) ==>
      exists s :: s in shapes && s.text.Some? && op.text <= s.text.value
    decreases |shapes|
  {
    if shapes != [] {
      var init := shapes[..|shapes| - 1];
      var last := shapes[|shapes| - 1];
      ShapeTextsTruncated(init);
      assert forall s :: s in init ==> s in shapes;
      forall op | op in ShapeOps(shapes)
        ensures exists s :: s in shapes && s.text.Some? && op.text <= s.text.value
      {
        if op !in ShapeOps(init) {
          assert last in shapes && last.text.Some? && op.text <= last.text.value;
        }
      }
    }
  }

  /** pptx_to_pdf ends exactly one page per slide, and everything it draws below
      the heading line is at most 80 characters long. */
  lemma {:induction false} PresentationLayout(slides: seq<seq<Shape>>)
    ensures PageBreaks(PresentationOps(slides)) == |slides|
    ensures forall op :: op in PresentationOps(slides) && op.DrawString? && op.y != SlideHeadingY ==>
      |op.text| <= ShapeTextLimit
    decreases |slides|
  {
    if slides != [] {
      var init := slides[..|slides| - 1];
      var last := slides[|slides| - 1];
      PresentationLayout(init);
      ShapeTextsTruncated(last);
      PageBreaksAppend(PresentationOps(init), SlideOps(|slides|, last));
      PageBreaksAppend([DrawString(SlideX, SlideHeadingY, "Slide " + Decimal(|slides|))], ShapeOps(last));
      PageBreaksAppend([DrawString(SlideX, SlideHeadingY, "Slide " + Decimal(|slides|))] + ShapeOps(last), [ShowPage]);
      NoBreaksInShapes(last);
    }
  }

  lemma {:induction false} PageBreaksAppend(a: seq<CanvasOp>, b: seq<CanvasOp>)
    ensures PageBreaks(a + b) == PageBreaks(a) + PageBreaks(b)
    decreases |b|
  {
    if b == [] {
      assert a + b == a;
    } else {
      PageBreaksAppend(a, b[..|b| - 1]);
      assert (a + b)[..|a + b| - 1] == a + b[..|b| - 1];
    }
  }

  lemma NoBreaksInShapes(shapes: seq<Shape>)
    ensures PageBreaks(ShapeOps(shapes)) == 0
  {
    var ops := ShapeOps(shapes);
    ShapeTextsTruncated(shapes);
    NoBreaksWithoutShowPage(ops);
  }

  lemma {:induction false} NoBreaksWithoutShowPage(ops: seq<CanvasOp>)
    requires forall op :: op in ops ==> op.DrawString?
    ensures PageBreaks(ops) == 0
    decreases |ops|
  {
    if ops != [] {
      var init := ops[..|ops| - 1];
      assert forall op :: op in init ==> op in ops;
      NoBreaksWithoutShowPage(init);
      assert ops[|ops| - 1] in ops;
    }
  }
}
