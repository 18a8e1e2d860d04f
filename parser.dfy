/**
 * `parse_pdfs` as a whole: fill in the default locations, list the PDFs
 * directory, open each PDF in name order and collect the rows of all of
 * them. Listing the directory and opening a PDF are foreign code, given as
 * the parameters `listDir` (the names of a directory's entries) and
 * `openPdf` (the pages of the PDF at a path).
 */
module Parser {
  import opened Wrappers
  import opened Trimming
  import opened Paths
  import opened Locator
  import opened Extraction
  import opened RowShape
  import opened CallCounts

  /** What a completed run hands to the CSV writer: the output file and the rows to write. */
  datatype Written = Written(csv: Path, rows: seq<Row>)

  /** The PDFs `_iter_pdf_paths` yields for a directory listed as `listing`, opened. */
  function Documents(pdfsDir: Path, listing: seq<string>, openPdf: Path -> seq<Page>): (r: seq<Document>)
    ensures |r| == |PdfNames(listing)|
    ensures forall k :: 0 <= k < |r| ==> r[k].FileName() == PdfNames(listing)[k]
    ensures forall k :: 0 <= k < |r| ==>
              r[k].path.Parent() == pdfsDir && MatchesPdfGlob(r[k].FileName()) && r[k].pages == openPdf(r[k].path)
    ensures forall a, b :: 0 <= a < b < |r| ==> Below(r[a].FileName(), r[b].FileName())
  {
    var paths := IterPdfPaths(pdfsDir, listing);
    seq(|paths|, k requires 0 <= k < |paths| => Document(paths[k], openPdf(paths[k])))
  }

  /** The PDFs a run with these arguments processes: those in the resolved PDFs directory, opened. */
  function InputDocuments(dataDir: Option<Path>, pdfsDir: Option<Path>, packageDataDir: Path,
                          listDir: Path -> seq<string>, openPdf: Path -> seq<Page>): seq<Document>
  {
    var dir := ResolveLocations(dataDir, None, pdfsDir, packageDataDir).pdfsDir;
    Documents(dir, listDir(dir), openPdf)
  }

  /**
   * A PDFs directory with no `*.pdf` entry, which is also what a missing
   * directory looks like to the glob, opens no document, and the run
   * completes with no rows.
   */
  lemma EmptyDirectoryNoRows(dataDir: Option<Path>, pdfsDir: Option<Path>, packageDataDir: Path,
                             listDir: Path -> seq<string>, openPdf: Path -> seq<Page>,
                             rasterize: Path -> seq<Image>, ocr: Image -> string)
    requires forall k :: 0 <= k < |listDir(ResolveLocations(dataDir, None, pdfsDir, packageDataDir).pdfsDir)| ==>
               !MatchesPdfGlob(listDir(ResolveLocations(dataDir, None, pdfsDir, packageDataDir).pdfsDir)[k])
    ensures InputDocuments(dataDir, pdfsDir, packageDataDir, listDir, openPdf) == []
    ensures Extract(InputDocuments(dataDir, pdfsDir, packageDataDir, listDir, openPdf), rasterize, ocr) == Success([])
  {
  }

  /** The file names of `rows` never go down. */
  predicate FilesInOrder(rows: seq<Row>) {
    forall k, l :: 0 <= k < l < |rows| ==> Below(rows[k].file, rows[l].file)
  }

  /**
   * Documents taken in file-name order give rows in file-name order, each
   * row's file name no later than the last document's.
   */
  lemma {:induction false} RowsInFileOrder(docs: seq<Document>, n: nat, rasterize: Path -> seq<Image>, ocr: Image -> string)
    requires n <= |docs| && RunRows(docs, n, rasterize, ocr).Success?
    requires forall a, b :: 0 <= a < b < |docs| ==> Below(docs[a].FileName(), docs[b].FileName())
    ensures FilesInOrder(RunRows(docs, n, rasterize, ocr).value)
    ensures n > 0 ==> forall k :: 0 <= k < |RunRows(docs, n, rasterize, ocr).value| ==>
                        Below(RunRows(docs, n, rasterize, ocr).value[k].file, docs[n - 1].FileName())
  {
    if n > 0 {
      RowsInFileOrder(docs, n - 1, rasterize, ocr);
      var doc := docs[n - 1];
      var prev := RunRows(docs, n - 1, rasterize, ocr).value;
      var own := DocRows(doc, |doc.pages|, rasterize, ocr).value;
      var rows := prev + own;
      DocRowsShape(doc, |doc.pages|, rasterize, ocr);
      BelowReflexive(doc.FileName());
      forall k | 0 <= k < |prev| ensures Below(prev[k].file, doc.FileName()) {
        BelowTransitive(prev[k].file, docs[n - 2].FileName(), doc.FileName());
      }
      forall k, l | 0 <= k < l < |rows| ensures Below(rows[k].file, rows[l].file) {
        if l < |prev| {
          assert rows[k] == prev[k] && rows[l] == prev[l];
        } else if k < |prev| {
          assert rows[k] == prev[k] && rows[l] == own[l - |prev|];
        } else {
          assert rows[k] == own[k - |prev|] && rows[l] == own[l - |prev|];
        }
      }
      forall k | 0 <= k < |rows| ensures Below(rows[k].file, doc.FileName()) {
        if k < |prev| { assert rows[k] == prev[k]; } else { assert rows[k] == own[k - |prev|]; }
      }
    }
  }

  /**
   * `parse_pdfs`: the rows of every PDF in the PDFs directory, in name
   * order, bound for the resolved output file; or the error that aborted
   * the run. Each document is rasterized at most once and only when one of
   * its pages needs OCR; a completed run rasterizes exactly the documents
   * that need it, recognizes exactly the blank pages, writes one row per
   * page plus one per table, and its rows go in file-name order.
   */
  method ParsePdfs(dataDir: Option<Path>, outputCsv: Option<Path>, pdfsDir: Option<Path>, packageDataDir: Path,
                   listDir: Path -> seq<string>, openPdf: Path -> seq<Page>,
                   rasterize: Path -> seq<Image>, ocr: Image -> string)
    returns (r: Result<Written, ParseError>, ghost rasterLog: seq<PageRef>, ghost ocrLog: seq<PageRef>)
    ensures var docs := InputDocuments(dataDir, pdfsDir, packageDataDir, listDir, openPdf);
            var run := Extract(docs, rasterize, ocr);
            && (r.Success? <==> run.Success?)
            && (r.Failure? ==> r.error == run.error)
            && (r.Success? ==> r.value == Written(ResolveLocations(dataDir, outputCsv, pdfsDir, packageDataDir).outputCsv, run.value))
    ensures var docs := InputDocuments(dataDir, pdfsDir, packageDataDir, listDir, openPdf);
            r.Success? ==> |r.value.rows| == RunRowCount(docs, |docs|) && FilesInOrder(r.value.rows)
    ensures var docs := InputDocuments(dataDir, pdfsDir, packageDataDir, listDir, openPdf);
            && (forall d: nat :: CallsFor(rasterLog, d) <= 1)
            && (forall d: nat :: CallsFor(rasterLog, d) == 1 ==> d < |docs| && DocNeedsOcr(docs[d]))
            && (r.Success? ==> forall d: nat :: d < |docs| && DocNeedsOcr(docs[d]) ==> CallsFor(rasterLog, d) == 1)
            && (r.Success? ==> forall e :: e in ocrLog <==> OcrPageNeedsIt(docs, e))
  {
    var loc := ResolveLocations(dataDir, outputCsv, pdfsDir, packageDataDir);
    var docs := Documents(loc.pdfsDir, listDir(loc.pdfsDir), openPdf);
    assert docs == InputDocuments(dataDir, pdfsDir, packageDataDir, listDir, openPdf);
    var run;
    run, rasterLog, ocrLog := ExtractRows(docs, rasterize, ocr);
    forall d: nat ensures CallsFor(rasterLog, d) <= 1 && (CallsFor(rasterLog, d) == 1 ==> d < |docs| && DocNeedsOcr(docs[d])) {
      RasterizedAtMostOnce(docs, rasterLog, d);
    }
    if run.Failure? {
      return Failure(run.error), rasterLog, ocrLog;
    }
    forall d: nat | d < |docs| && DocNeedsOcr(docs[d]) ensures CallsFor(rasterLog, d) == 1 {
      RasterPlanCalls(docs, |docs|, d);
    }
    OcrPlanExact(docs, |docs|);
    RunRowsCount(docs, |docs|, rasterize, ocr);
    RowsInFileOrder(docs, |docs|, rasterize, ocr);
    r := Success(Written(loc.outputCsv, run.value));
  }

  /**
   * A small run: `a.pdf` has a page with text and a blank page carrying one
   * table. The first page keeps its text, whatever OCR would say; the blank
   * page gets the OCR text of the second image, then its table row. When
   * the rasterizer yields fewer than two images the run aborts, naming
   * page 2 of `a.pdf`.
   */
  lemma BlankPageExample(grid: Grid, rasterize: Path -> seq<Image>, ocr: Image -> string)
    ensures var path := Path(["data", "pdfs", "a.pdf"]);
            var docs := [Document(path, [Page(Some("Invoice"), None), Page(Some(" \n"), Some([grid]))])];
            && (|rasterize(path)| >= 2 ==>
                  Extract(docs, rasterize, ocr) == Success([Row("a.pdf", 1, Text("Invoice")),
                                                            Row("a.pdf", 2, Text(ocr(rasterize(path)[1]))),
                                                            Row("a.pdf", 2, Table(grid))]))
            && (|rasterize(path)| < 2 ==> Extract(docs, rasterize, ocr) == Failure(OcrImageMissing("a.pdf", 2)))
  {
    var path := Path(["data", "pdfs", "a.pdf"]);
    var doc := Document(path, [Page(Some("Invoice"), None), Page(Some(" \n"), Some([grid]))]);
    assert doc.FileName() == "a.pdf";
    StripKeepsTrimmed("Invoice");
    assert !IsSpace('I');
    assert PageText(doc, 0, rasterize, ocr) == Success("Invoice");
    assert DocRows(doc, 0, rasterize, ocr) == Success([]);
    assert PageTables(doc.pages[0]) == [] && PageTables(doc.pages[1]) == [grid];
    assert PageRows("a.pdf", 1, "Invoice", []) == [Row("a.pdf", 1, Text("Invoice"))];
    assert [] + PageRows("a.pdf", 1, "Invoice", []) == PageRows("a.pdf", 1, "Invoice", []);
    assert DocRows(doc, 1, rasterize, ocr) == Success([Row("a.pdf", 1, Text("Invoice"))]);
    assert NeedsOcr(doc.pages[1]) by {
      assert " \n"[1..][1..] == "";
    }
    if |rasterize(path)| >= 2 {
      assert PageText(doc, 1, rasterize, ocr) == Success(ocr(rasterize(path)[1]));
      assert PageRows("a.pdf", 2, ocr(rasterize(path)[1]), [grid])
             == [Row("a.pdf", 2, Text(ocr(rasterize(path)[1]))), Row("a.pdf", 2, Table(grid))];
    } else {
      assert PageText(doc, 1, rasterize, ocr) == Failure(OcrImageMissing("a.pdf", 2));
    }
    assert RunRows([doc], 1, rasterize, ocr) == AppendedTo([], DocRows(doc, 2, rasterize, ocr));
    if |rasterize(path)| >= 2 {
      var rows := DocRows(doc, 2, rasterize, ocr).value;
      assert rows == [Row("a.pdf", 1, Text("Invoice"))]
                     + [Row("a.pdf", 2, Text(ocr(rasterize(path)[1]))), Row("a.pdf", 2, Table(grid))];
      assert rows == [Row("a.pdf", 1, Text("Invoice")), Row("a.pdf", 2, Text(ocr(rasterize(path)[1]))),
                      Row("a.pdf", 2, Table(grid))];
      assert [] + rows == rows;
    }
  }
}
