/**
 * The document and page loop of `parse_pdfs`: for every page, the text
 * layer (trimmed) or, when that is blank, the OCR text of the page's
 * rasterized image, followed by the page's tables, appended to one list of
 * rows. Rasterization happens lazily, at most once per document.
 *
 * PDF parsing, rasterization and OCR are foreign code: a document arrives
 * as its pages, and `rasterize` and `ocr` are parameters.
 */
module Extraction {
  import opened Wrappers
  import opened Trimming
  import opened Paths

  /** A rasterized page image; the model never looks inside one. */
  type Image

  /** A detected table: rows of cells, a cell possibly empty (`None`). */
  type Grid = seq<seq<Option<string>>>

  /**
   * What the PDF library reports for one page: the text layer (`None` when
   * there is none) and the detected tables (`None` or a list).
   */
  datatype Page = Page(textLayer: Option<string>, tables: Option<seq<Grid>>)

  /** An opened PDF: where it lives and its pages in order. */
  datatype Document = Document(path: Path, pages: seq<Page>) {
    /** The file name each of its rows carries. */
    function FileName(): string { path.Name() }
  }

  /** What a row holds: the page's text (column `type` = "text") or one table ("table"). */
  datatype Content = Text(text: string) | Table(grid: Grid)

  /** One output record: file name, 1-based page number and content. */
  datatype Row = Row(file: string, page: nat, content: Content)

  /** The run aborts when the raster list has no image for a page that needs OCR (an IndexError). */
  datatype ParseError = OcrImageMissing(file: string, page: nat)

  /** A page by 0-based document index and 0-based page index, for the ghost call logs. */
  datatype PageRef = PageRef(doc: nat, page: nat)

  /** The page's text layer, `None` read as empty, trimmed. */
  function LayerText(p: Page): (r: string)
    ensures Trimmed(r)
    ensures r == "" <==> NeedsOcr(p)
  {
    Strip(p.textLayer.GetOr(""))
  }

  /** OCR is used for a page exactly when its trimmed text layer is empty, that is, when the layer is all whitespace. */
  predicate NeedsOcr(p: Page)
    ensures p.textLayer.None? ==> NeedsOcr(p)
  {
    AllSpace(p.textLayer.GetOr(""))
  }

  /** The page's tables, `None` read as no tables. */
  function PageTables(p: Page): seq<Grid> {
    p.tables.GetOr([])
  }

  /** The rasterization of `doc` has no image for its page index `i`, which needs OCR. */
  predicate ImageMissing(doc: Document, i: nat, rasterize: Path -> seq<Image>) {
    i < |doc.pages| && NeedsOcr(doc.pages[i]) && |rasterize(doc.path)| <= i
  }

  /** The text emitted for page index `i` of `doc`. */
  function PageText(doc: Document, i: nat, rasterize: Path -> seq<Image>, ocr: Image -> string)
    : Result<string, ParseError>
    requires i < |doc.pages|
  {
    if !NeedsOcr(doc.pages[i]) then Success(LayerText(doc.pages[i]))
    else
      var images := rasterize(doc.path);
      if i < |images| then Success(ocr(images[i]))
      else Failure(OcrImageMissing(doc.FileName(), i + 1))
  }

  /**
   * The fallback policy. A page with a non-blank text layer gets that layer,
   * trimmed, whatever the rasterizer and the OCR engine would do. A blank
   * page gets exactly the OCR text of image `i` (untrimmed), or the run fails
   * when there is no such image.
   */
  lemma FallbackPolicy(doc: Document, i: nat, rasterize: Path -> seq<Image>, ocr: Image -> string,
                       rasterize': Path -> seq<Image>, ocr': Image -> string)
    requires i < |doc.pages|
    ensures !NeedsOcr(doc.pages[i]) ==>
              PageText(doc, i, rasterize, ocr) == PageText(doc, i, rasterize', ocr')
              && PageText(doc, i, rasterize, ocr) == Success(Strip(doc.pages[i].textLayer.GetOr("")))
              && PageText(doc, i, rasterize, ocr).value != ""
              && Trimmed(PageText(doc, i, rasterize, ocr).value)
    ensures NeedsOcr(doc.pages[i]) && i < |rasterize(doc.path)| ==>
              PageText(doc, i, rasterize, ocr) == Success(ocr(rasterize(doc.path)[i]))
    ensures PageText(doc, i, rasterize, ocr).Failure? <==> ImageMissing(doc, i, rasterize)
  {
  }

  /**
   * The rows for one page: one text row first, then one table row per
   * table in order, all carrying the file name and page number.
   */
  function PageRows(file: string, pageNumber: nat, text: string, tables: seq<Grid>): (r: seq<Row>)
    ensures |r| == 1 + |tables|
    ensures r[0] == Row(file, pageNumber, Text(text))
    ensures forall k :: 0 <= k < |tables| ==> r[k + 1] == Row(file, pageNumber, Table(tables[k]))
  {
    [Row(file, pageNumber, Text(text))]
      + seq(|tables|, k requires 0 <= k < |tables| => Row(file, pageNumber, Table(tables[k])))
  }

  /** Taking one more table adds exactly its table row at the end. */
  lemma PageRowsExtend(file: string, pageNumber: nat, text: string, tables: seq<Grid>, k: nat)
    requires k < |tables|
    ensures PageRows(file, pageNumber, text, tables[..k + 1])
            == PageRows(file, pageNumber, text, tables[..k]) + [Row(file, pageNumber, Table(tables[k]))]
  {
  }

  /** The rows of the first `n` pages of `doc`, or the error that stops the run. */
  function DocRows(doc: Document, n: nat, rasterize: Path -> seq<Image>, ocr: Image -> string)
    : Result<seq<Row>, ParseError>
    requires n <= |doc.pages|
  {
    if n == 0 then Success([])
    else
      match DocRows(doc, n - 1, rasterize, ocr)
      case Failure(e) => Failure(e)
      case Success(prev) =>
        match PageText(doc, n - 1, rasterize, ocr)
        case Failure(e) => Failure(e)
        case Success(text) => Success(prev + PageRows(doc.FileName(), n, text, PageTables(doc.pages[n - 1])))
  }

  /** `rows` followed by the rows of `result`, or the error of `result`. */
  function AppendedTo(rows: seq<Row>, result: Result<seq<Row>, ParseError>): Result<seq<Row>, ParseError> {
    if result.Failure? then result else Success(rows + result.value)
  }

  /** The rows of the first `n` documents, or the error that stops the run. */
  function RunRows(docs: seq<Document>, n: nat, rasterize: Path -> seq<Image>, ocr: Image -> string)
    : Result<seq<Row>, ParseError>
    requires n <= |docs|
  {
    if n == 0 then Success([])
    else
      match RunRows(docs, n - 1, rasterize, ocr)
      case Failure(e) => Failure(e)
      case Success(prev) =>
        match DocRows(docs[n - 1], |docs[n - 1].pages|, rasterize, ocr)
        case Failure(e) => Failure(e)
        case Success(rows) => Success(prev + rows)
  }

  /** The rows a run over `docs` collects, or the error that aborts it. */
  function Extract(docs: seq<Document>, rasterize: Path -> seq<Image>, ocr: Image -> string)
    : Result<seq<Row>, ParseError>
  {
    RunRows(docs, |docs|, rasterize, ocr)
  }

  /** Once a page fails, the document's rows fail with the same error: nothing after it is processed. */
  lemma {:induction false} DocFailureSticks(doc: Document, m: nat, n: nat,
                                            rasterize: Path -> seq<Image>, ocr: Image -> string)
    requires m <= n <= |doc.pages|
    requires DocRows(doc, m, rasterize, ocr).Failure?
    ensures DocRows(doc, n, rasterize, ocr) == DocRows(doc, m, rasterize, ocr)
  {
    if m < n {
      DocFailureSticks(doc, m, n - 1, rasterize, ocr);
    }
  }

  /**
   * A document whose pages before index `i` succeed and whose page `i`
   * fails stops there: its error names page `i + 1`, which needs OCR and
   * has no image.
   */
  lemma DocStopsAt(doc: Document, i: nat, rasterize: Path -> seq<Image>, ocr: Image -> string)
    requires i < |doc.pages| && DocRows(doc, i, rasterize, ocr).Success?
    requires PageText(doc, i, rasterize, ocr).Failure?
    ensures DocRows(doc, |doc.pages|, rasterize, ocr) == Failure(OcrImageMissing(doc.FileName(), i + 1))
    ensures NeedsOcr(doc.pages[i]) && ImageMissing(doc, i, rasterize)
  {
    DocFailureSticks(doc, i + 1, |doc.pages|, rasterize, ocr);
  }

  /** Once a document fails, the whole run fails with the same error: the run aborts. */
  lemma {:induction false} RunFailureSticks(docs: seq<Document>, m: nat, n: nat,
                                            rasterize: Path -> seq<Image>, ocr: Image -> string)
    requires m <= n <= |docs|
    requires RunRows(docs, m, rasterize, ocr).Failure?
    ensures RunRows(docs, n, rasterize, ocr) == RunRows(docs, m, rasterize, ocr)
  {
    if m < n {
      RunFailureSticks(docs, m, n - 1, rasterize, ocr);
    }
  }

  /** The index of the first of the first `n` pages of `doc` that needs OCR. */
  function FirstOcrPage(doc: Document, n: nat): Option<nat>
    requires n <= |doc.pages|
  {
    if n == 0 then None
    else
      match FirstOcrPage(doc, n - 1)
      case Some(i) => Some(i)
      case None => if NeedsOcr(doc.pages[n - 1]) then Some(n - 1) else None
  }

  /** `FirstOcrPage` finds the earliest page that needs OCR, and finds none only when there is none. */
  lemma {:induction false} FirstOcrPageIsFirst(doc: Document, n: nat)
    requires n <= |doc.pages|
    ensures var r := FirstOcrPage(doc, n);
            && (r.Some? ==> r.value < n && NeedsOcr(doc.pages[r.value])
                            && forall k :: 0 <= k < r.value ==> !NeedsOcr(doc.pages[k]))
            && (r.None? ==> forall k :: 0 <= k < n ==> !NeedsOcr(doc.pages[k]))
  {
    if n > 0 {
      FirstOcrPageIsFirst(doc, n - 1);
    }
  }

  /** Some page of `doc` needs OCR. */
  predicate DocNeedsOcr(doc: Document) {
    FirstOcrPage(doc, |doc.pages|).Some?
  }

  /** The rasterization made while processing the first `n` pages of document `d`: none, or one at its first OCR page. */
  function DocRasterPlan(docs: seq<Document>, d: nat, n: nat): seq<PageRef>
    requires d < |docs| && n <= |docs[d].pages|
  {
    var first := FirstOcrPage(docs[d], n);
    if first.Some? then [PageRef(d, first.value)] else []
  }

  /** The rasterizations a run over the first `n` documents performs, in order. */
  function RasterPlan(docs: seq<Document>, n: nat): seq<PageRef>
    requires n <= |docs|
  {
    if n == 0 then [] else RasterPlan(docs, n - 1) + DocRasterPlan(docs, n - 1, |docs[n - 1].pages|)
  }

  /** The OCR calls made for the first `n` pages of document `d`, in page order. */
  function DocOcrPlan(docs: seq<Document>, d: nat, n: nat): seq<PageRef>
    requires d < |docs| && n <= |docs[d].pages|
  {
    if n == 0 then []
    else DocOcrPlan(docs, d, n - 1) + if NeedsOcr(docs[d].pages[n - 1]) then [PageRef(d, n - 1)] else []
  }

  /** The OCR calls a run over the first `n` documents makes, in order. */
  function OcrPlan(docs: seq<Document>, n: nat): seq<PageRef>
    requires n <= |docs|
  {
    if n == 0 then [] else OcrPlan(docs, n - 1) + DocOcrPlan(docs, n - 1, |docs[n - 1].pages|)
  }

  /**
   * A log of rasterizations is sound: each was made on the first page of its
   * document that needs OCR, and documents only move forward, so no document
   * is rasterized twice.
   */
  predicate RasterLogSound(docs: seq<Document>, log: seq<PageRef>) {
    && (forall k :: 0 <= k < |log| ==> RasterizedAtFirstOcrPage(docs, log[k]))
    && (forall k, l :: 0 <= k < l < |log| ==> log[k].doc < log[l].doc)
  }

  /** `e` names a document of `docs` and the first of its pages that needs OCR. */
  predicate RasterizedAtFirstOcrPage(docs: seq<Document>, e: PageRef) {
    e.doc < |docs| && FirstOcrPage(docs[e.doc], |docs[e.doc].pages|) == Some(e.page)
  }

  /** A log of OCR calls is sound: each was made for an existing page whose trimmed text is empty. */
  predicate OcrLogSound(docs: seq<Document>, log: seq<PageRef>) {
    forall k :: 0 <= k < |log| ==> OcrPageNeedsIt(docs, log[k])
  }

  /** `e` names an existing page of `docs` whose trimmed text layer is empty. */
  predicate OcrPageNeedsIt(docs: seq<Document>, e: PageRef) {
    e.doc < |docs| && e.page < |docs[e.doc].pages| && NeedsOcr(docs[e.doc].pages[e.page])
  }

  /** How many entries of `log` concern document `d`. */
  function CallsFor(log: seq<PageRef>, d: nat): nat {
    if log == [] then 0
    else CallsFor(log[..|log| - 1], d) + if log[|log| - 1].doc == d then 1 else 0
  }

  /**
   * The document loop of `parse_pdfs`: every document in order, its rows
   * appended to one list. The ghost logs record every call of the
   * rasterizer and of the OCR engine.
   */
  method ExtractRows(docs: seq<Document>, rasterize: Path -> seq<Image>, ocr: Image -> string)
    returns (r: Result<seq<Row>, ParseError>, ghost rasterLog: seq<PageRef>, ghost ocrLog: seq<PageRef>)
    ensures r == Extract(docs, rasterize, ocr)
    ensures r.Success? ==> rasterLog == RasterPlan(docs, |docs|) && ocrLog == OcrPlan(docs, |docs|)
    ensures RasterLogSound(docs, rasterLog) && OcrLogSound(docs, ocrLog)
  {
    var rows: seq<Row> := [];
    rasterLog, ocrLog := [], [];
    var d := 0;
    while d < |docs|
      invariant d <= |docs|
      invariant RunRows(docs, d, rasterize, ocr) == Success(rows)
      invariant rasterLog == RasterPlan(docs, d) && ocrLog == OcrPlan(docs, d)
    {
      var res;
      ghost var stop;
      res, rasterLog, ocrLog, stop := ExtractDocument(docs, d, rasterize, ocr, rows, rasterLog, ocrLog);
      ghost var own := DocRows(docs[d], |docs[d].pages|, rasterize, ocr);
      if res.Failure? {
        assert own.Failure? && res == own;
        RunStops(docs, d, rasterize, ocr);
        PartialLogsSound(docs, d, stop, rasterLog, ocrLog);
        return res, rasterLog, ocrLog;
      }
      assert own.Success? && res.value == rows + own.value;
      RunStep(docs, d, rasterize, ocr);
      rows := res.value;
      d := d + 1;
    }
    r := Success(rows);
    PlansSound(docs, rasterLog, ocrLog);
  }

  /**
   * The page loop for document `d`, appending its rows to `rows`.
   * `cache` is the document's raster cache: it starts empty, is filled on
   * the first page that needs OCR and is reused for later ones. On failure,
   * `stop` is the index of the page whose image was missing.
   */
  method ExtractDocument(docs: seq<Document>, d: nat, rasterize: Path -> seq<Image>, ocr: Image -> string,
                         rows: seq<Row>, ghost rasterIn: seq<PageRef>, ghost ocrIn: seq<PageRef>)
    returns (r: Result<seq<Row>, ParseError>, ghost rasterLog: seq<PageRef>, ghost ocrLog: seq<PageRef>,
             ghost stop: nat)
    requires d < |docs|
    ensures r == AppendedTo(rows, DocRows(docs[d], |docs[d].pages|, rasterize, ocr))
    ensures r.Success? ==> rasterLog == rasterIn + DocRasterPlan(docs, d, |docs[d].pages|)
                           && ocrLog == ocrIn + DocOcrPlan(docs, d, |docs[d].pages|)
    ensures r.Failure? ==> stop < |docs[d].pages| && NeedsOcr(docs[d].pages[stop])
                           && rasterLog == rasterIn + DocRasterPlan(docs, d, stop + 1)
                           && ocrLog == ocrIn + DocOcrPlan(docs, d, stop)
    ensures r.Failure? ==> r.error == OcrImageMissing(docs[d].FileName(), stop + 1) && ImageMissing(docs[d], stop, rasterize)
  {
    var doc := docs[d];
    var out := rows;
    rasterLog, ocrLog, stop := rasterIn, ocrIn, 0;
    var cache: Option<seq<Image>> := None;
    var i := 0;
    while i < |doc.pages|
      invariant i <= |doc.pages|
      invariant DocRows(doc, i, rasterize, ocr).Success?
      invariant out == rows + DocRows(doc, i, rasterize, ocr).value
      invariant cache.Some? ==> cache.value == rasterize(doc.path)
      invariant cache.Some? <==> FirstOcrPage(doc, i).Some?
      invariant rasterLog == rasterIn + DocRasterPlan(docs, d, i)
      invariant ocrLog == ocrIn + DocOcrPlan(docs, d, i)
    {
      DocStep(docs, d, i, rasterize, ocr);
      var text;
      ghost var rasterAdd, ocrAdd;
      text, cache, rasterAdd, ocrAdd := PageContent(docs, d, i, rasterize, ocr, cache);
      rasterLog := rasterLog + rasterAdd;
      if text.Failure? {
        DocStopsAt(doc, i, rasterize, ocr);
        return Failure(text.error), rasterLog, ocrLog, i;
      }
      AppendAssociates(ocrIn, DocOcrPlan(docs, d, i), ocrAdd);
      ocrLog := ocrLog + ocrAdd;
      ghost var pageRows := PageRows(doc.FileName(), i + 1, text.value, PageTables(doc.pages[i]));
      AppendAssociates(rows, DocRows(doc, i, rasterize, ocr).value, pageRows);
      out := AppendPageRows(out, doc.FileName(), i + 1, text.value, PageTables(doc.pages[i]));
      i := i + 1;
    }
    r := Success(out);
  }

  /**
   * The text of page index `i` of document `d`: its trimmed text layer, or,
   * when that is empty, the OCR text of its image, rasterizing the document
   * first when `cache` is still empty. `rasterAdd` and `ocrAdd` log the
   * calls made.
   */
  method PageContent(docs: seq<Document>, d: nat, i: nat, rasterize: Path -> seq<Image>, ocr: Image -> string,
                     cache: Option<seq<Image>>)
    returns (text: Result<string, ParseError>, cache': Option<seq<Image>>,
             ghost rasterAdd: seq<PageRef>, ghost ocrAdd: seq<PageRef>)
    requires d < |docs| && i < |docs[d].pages|
    requires cache.Some? ==> cache.value == rasterize(docs[d].path)
    ensures text == PageText(docs[d], i, rasterize, ocr)
    ensures cache'.Some? ==> cache'.value == rasterize(docs[d].path)
    ensures cache'.Some? <==> cache.Some? || NeedsOcr(docs[d].pages[i])
    ensures rasterAdd == if cache.None? && NeedsOcr(docs[d].pages[i]) then [PageRef(d, i)] else []
    ensures ocrAdd == if NeedsOcr(docs[d].pages[i]) && text.Success? then [PageRef(d, i)] else []
  {
    var doc := docs[d];
    var page := doc.pages[i];
    var t := Strip(page.textLayer.GetOr(""));
    cache', rasterAdd, ocrAdd := cache, [], [];
    if t != "" {
      return Success(t), cache', rasterAdd, ocrAdd;
    }
    if cache'.None? {
      cache' := Some(rasterize(doc.path));
      rasterAdd := [PageRef(d, i)];
    }
    if i >= |cache'.value| {
      return Failure(OcrImageMissing(doc.FileName(), i + 1)), cache', rasterAdd, ocrAdd;
    }
    text := Success(ocr(cache'.value[i]));
    ocrAdd := [PageRef(d, i)];
  }

  /** Appends the rows of one page to `rows`: its text row, then one row per table in order. */
  method AppendPageRows(rows: seq<Row>, file: string, pageNumber: nat, text: string, tables: seq<Grid>)
    returns (out: seq<Row>)
    ensures out == rows + PageRows(file, pageNumber, text, tables)
  {
    out := rows + [Row(file, pageNumber, Text(text))];
    var k := 0;
    while k < |tables|
      invariant k <= |tables|
      invariant out == rows + PageRows(file, pageNumber, text, tables[..k])
    {
      PageRowsExtend(file, pageNumber, text, tables, k);
      out := out + [Row(file, pageNumber, Table(tables[k]))];
      k := k + 1;
    }
    assert tables[..k] == tables;
  }

  /** Concatenation is associative. */
  lemma AppendAssociates<T>(a: seq<T>, b: seq<T>, c: seq<T>)
    ensures (a + b) + c == a + (b + c)
  {
  }

  /** A run whose document `d` fails after the earlier ones succeeded ends with that document's error. */
  lemma RunStops(docs: seq<Document>, d: nat, rasterize: Path -> seq<Image>, ocr: Image -> string)
    requires d < |docs|
    requires RunRows(docs, d, rasterize, ocr).Success? && DocRows(docs[d], |docs[d].pages|, rasterize, ocr).Failure?
    ensures Extract(docs, rasterize, ocr) == DocRows(docs[d], |docs[d].pages|, rasterize, ocr)
  {
    RunFailureSticks(docs, d + 1, |docs|, rasterize, ocr);
  }

  /** What processing document `d` adds to the run's rows and call plans. */
  lemma RunStep(docs: seq<Document>, d: nat, rasterize: Path -> seq<Image>, ocr: Image -> string)
    requires d < |docs|
    requires RunRows(docs, d, rasterize, ocr).Success? && DocRows(docs[d], |docs[d].pages|, rasterize, ocr).Success?
    ensures RunRows(docs, d + 1, rasterize, ocr)
            == Success(RunRows(docs, d, rasterize, ocr).value + DocRows(docs[d], |docs[d].pages|, rasterize, ocr).value)
    ensures RasterPlan(docs, d + 1) == RasterPlan(docs, d) + DocRasterPlan(docs, d, |docs[d].pages|)
    ensures OcrPlan(docs, d + 1) == OcrPlan(docs, d) + DocOcrPlan(docs, d, |docs[d].pages|)
  {
  }

  /** What processing page index `n` of document `d` adds to its rows and to the call plans. */
  lemma DocStep(docs: seq<Document>, d: nat, n: nat, rasterize: Path -> seq<Image>, ocr: Image -> string)
    requires d < |docs| && n < |docs[d].pages|
    requires DocRows(docs[d], n, rasterize, ocr).Success?
    ensures PageText(docs[d], n, rasterize, ocr).Failure? ==>
              DocRows(docs[d], n + 1, rasterize, ocr) == Failure(PageText(docs[d], n, rasterize, ocr).error)
    ensures PageText(docs[d], n, rasterize, ocr).Success? ==>
              DocRows(docs[d], n + 1, rasterize, ocr)
              == Success(DocRows(docs[d], n, rasterize, ocr).value
                         + PageRows(docs[d].FileName(), n + 1, PageText(docs[d], n, rasterize, ocr).value,
                                    PageTables(docs[d].pages[n])))
    ensures FirstOcrPage(docs[d], n + 1).Some? <==> FirstOcrPage(docs[d], n).Some? || NeedsOcr(docs[d].pages[n])
    ensures DocRasterPlan(docs, d, n + 1)
            == if FirstOcrPage(docs[d], n).None? && NeedsOcr(docs[d].pages[n]) then [PageRef(d, n)]
               else DocRasterPlan(docs, d, n)
    ensures DocOcrPlan(docs, d, n + 1)
            == DocOcrPlan(docs, d, n) + if NeedsOcr(docs[d].pages[n]) then [PageRef(d, n)] else []
  {
  }

  /** Once found, the first page needing OCR stays the first as more pages are looked at. */
  lemma {:induction false} FirstOcrPageStable(doc: Document, m: nat, n: nat)
    requires m <= n <= |doc.pages| && FirstOcrPage(doc, m).Some?
    ensures FirstOcrPage(doc, n) == FirstOcrPage(doc, m)
  {
    if m < n {
      FirstOcrPageStable(doc, m, n - 1);
    }
  }

  /** The OCR calls for the first `m` pages of a document begin its OCR calls for the first `n`. */
  lemma {:induction false} DocOcrPlanPrefix(docs: seq<Document>, d: nat, m: nat, n: nat)
    requires d < |docs| && m <= n <= |docs[d].pages|
    ensures DocOcrPlan(docs, d, m) <= DocOcrPlan(docs, d, n)
  {
    if m < n {
      DocOcrPlanPrefix(docs, d, m, n - 1);
    }
  }

  /** The call logs of a run that completes are sound. */
  lemma PlansSound(docs: seq<Document>, rasterLog: seq<PageRef>, ocrLog: seq<PageRef>)
    requires rasterLog == RasterPlan(docs, |docs|) && ocrLog == OcrPlan(docs, |docs|)
    ensures RasterLogSound(docs, rasterLog) && OcrLogSound(docs, ocrLog)
  {
    RasterPlanSound(docs, |docs|);
    OcrPlanSound(docs, |docs|);
  }

  /**
   * The call logs of a run that stops at page index `n` of document `d`
   * (that page rasterized if it was the first to need it, but not
   * recognized) are sound.
   */
  lemma PartialLogsSound(docs: seq<Document>, d: nat, n: nat, rasterLog: seq<PageRef>, ocrLog: seq<PageRef>)
    requires d < |docs| && n < |docs[d].pages| && NeedsOcr(docs[d].pages[n])
    requires rasterLog == RasterPlan(docs, d) + DocRasterPlan(docs, d, n + 1)
    requires ocrLog == OcrPlan(docs, d) + DocOcrPlan(docs, d, n)
    ensures RasterLogSound(docs, rasterLog) && OcrLogSound(docs, ocrLog)
  {
    FirstOcrPageStable(docs[d], n + 1, |docs[d].pages|);
    assert RasterPlan(docs, d + 1) == rasterLog;
    RasterPlanSound(docs, d + 1);
    DocOcrPlanPrefix(docs, d, n, |docs[d].pages|);
    OcrPlanSound(docs, d + 1);
    var full := OcrPlan(docs, d + 1);
    assert forall k :: 0 <= k < |ocrLog| ==> ocrLog[k] == full[k];
  }

  /** The rasterization plan is sound (see RasterLogSound). */
  lemma RasterPlanSound(docs: seq<Document>, n: nat)
    requires n <= |docs|
    ensures RasterLogSound(docs, RasterPlan(docs, n))
  {
    RasterPlanAtFirstOcrPage(docs, n);
    RasterPlanIncreasing(docs, n);
  }

  /** Every rasterization of the plan concerns one of the first `n` documents. */
  lemma {:induction false} RasterPlanBelow(docs: seq<Document>, n: nat)
    requires n <= |docs|
    ensures forall k :: 0 <= k < |RasterPlan(docs, n)| ==> RasterPlan(docs, n)[k].doc < n
  {
    if n > 0 {
      RasterPlanBelow(docs, n - 1);
    }
  }

  /** Every rasterization of the plan happens on the first page of its document that needs OCR. */
  lemma {:induction false} RasterPlanAtFirstOcrPage(docs: seq<Document>, n: nat)
    requires n <= |docs|
    ensures forall k :: 0 <= k < |RasterPlan(docs, n)| ==> RasterizedAtFirstOcrPage(docs, RasterPlan(docs, n)[k])
  {
    if n > 0 {
      RasterPlanAtFirstOcrPage(docs, n - 1);
      var prev := RasterPlan(docs, n - 1);
      var plan := RasterPlan(docs, n);
      var first := FirstOcrPage(docs[n - 1], |docs[n - 1].pages|);
      if first.Some? {
        var e := PageRef(n - 1, first.value);
        assert plan == prev + [e];
        assert RasterizedAtFirstOcrPage(docs, e);
      }
    }
  }

  /** The plan rasterizes documents in strictly increasing order, so none twice. */
  lemma {:induction false} RasterPlanIncreasing(docs: seq<Document>, n: nat)
    requires n <= |docs|
    ensures forall k, l :: 0 <= k < l < |RasterPlan(docs, n)| ==> RasterPlan(docs, n)[k].doc < RasterPlan(docs, n)[l].doc
  {
    if n > 0 {
      RasterPlanIncreasing(docs, n - 1);
      RasterPlanBelow(docs, n - 1);
      var prev := RasterPlan(docs, n - 1);
      var plan := RasterPlan(docs, n);
      var first := FirstOcrPage(docs[n - 1], |docs[n - 1].pages|);
      if first.Some? {
        var e := PageRef(n - 1, first.value);
        assert plan == prev + [e];
        forall k, l | 0 <= k < l < |plan| ensures plan[k].doc < plan[l].doc {
          assert plan[k] == prev[k];
          if l < |prev| { assert plan[l] == prev[l]; } else { assert plan[l] == e; }
        }
      } else {
        assert plan == prev;
      }
    }
  }

  /** Every OCR call the plan makes is for a page whose trimmed text is empty. */
  lemma {:induction false} OcrPlanSound(docs: seq<Document>, n: nat)
    requires n <= |docs|
    ensures OcrLogSound(docs, OcrPlan(docs, n))
  {
    if n > 0 {
      OcrPlanSound(docs, n - 1);
      DocOcrPlanSound(docs, n - 1, |docs[n - 1].pages|);
    }
  }

  lemma {:induction false} DocOcrPlanSound(docs: seq<Document>, d: nat, n: nat)
    requires d < |docs| && n <= |docs[d].pages|
    ensures OcrLogSound(docs, DocOcrPlan(docs, d, n))
  {
    if n > 0 {
      DocOcrPlanSound(docs, d, n - 1);
    }
  }
}
