/**
 * What the rows collected by `parse_pdfs` look like: how many there are,
 * where each page's rows sit, which file and page every row names, that
 * earlier rows are never changed, and when the run aborts.
 */
module RowShape {
  import opened Wrappers
  import opened Paths
  import opened Extraction

  /** The number of rows the first `n` pages of `doc` produce: one per page plus one per table. */
  function DocRowCount(doc: Document, n: nat): nat
    requires n <= |doc.pages|
  {
    if n == 0 then 0 else DocRowCount(doc, n - 1) + 1 + |PageTables(doc.pages[n - 1])|
  }

  /** The number of rows the first `n` documents produce. */
  function RunRowCount(docs: seq<Document>, n: nat): nat
    requires n <= |docs|
  {
    if n == 0 then 0 else RunRowCount(docs, n - 1) + DocRowCount(docs[n - 1], |docs[n - 1].pages|)
  }

  /** A document's rows number one per page plus one per table. */
  lemma {:induction false} DocRowsCount(doc: Document, n: nat, rasterize: Path -> seq<Image>, ocr: Image -> string)
    requires n <= |doc.pages| && DocRows(doc, n, rasterize, ocr).Success?
    ensures |DocRows(doc, n, rasterize, ocr).value| == DocRowCount(doc, n)
  {
    if n > 0 {
      DocRowsCount(doc, n - 1, rasterize, ocr);
    }
  }

  /** A completed run's rows number one per page plus one per table, over all documents. */
  lemma {:induction false} RunRowsCount(docs: seq<Document>, n: nat, rasterize: Path -> seq<Image>, ocr: Image -> string)
    requires n <= |docs| && RunRows(docs, n, rasterize, ocr).Success?
    ensures |RunRows(docs, n, rasterize, ocr).value| == RunRowCount(docs, n)
  {
    if n > 0 {
      RunRowsCount(docs, n - 1, rasterize, ocr);
      DocRowsCount(docs[n - 1], |docs[n - 1].pages|, rasterize, ocr);
    }
  }

  /** Rows are only appended: the rows of fewer pages begin the rows of more pages. */
  lemma {:induction false} DocRowsGrow(doc: Document, m: nat, n: nat, rasterize: Path -> seq<Image>, ocr: Image -> string)
    requires m <= n <= |doc.pages| && DocRows(doc, n, rasterize, ocr).Success?
    ensures DocRows(doc, m, rasterize, ocr).Success?
    ensures DocRows(doc, m, rasterize, ocr).value <= DocRows(doc, n, rasterize, ocr).value
  {
    if m < n {
      DocRowsGrow(doc, m, n - 1, rasterize, ocr);
    }
  }

  /** Rows are only appended: the rows of fewer documents begin the rows of more documents. */
  lemma {:induction false} RunRowsGrow(docs: seq<Document>, m: nat, n: nat, rasterize: Path -> seq<Image>, ocr: Image -> string)
    requires m <= n <= |docs| && RunRows(docs, n, rasterize, ocr).Success?
    ensures RunRows(docs, m, rasterize, ocr).Success?
    ensures RunRows(docs, m, rasterize, ocr).value <= RunRows(docs, n, rasterize, ocr).value
  {
    if m < n {
      RunRowsGrow(docs, m, n - 1, rasterize, ocr);
    }
  }

  /**
   * The rows of page index `i` occupy positions `DocRowCount(doc, i)` up to
   * `DocRowCount(doc, i + 1)`: its text row, then its tables in order.
   */
  lemma DocRowsLayout(doc: Document, n: nat, i: nat, rasterize: Path -> seq<Image>, ocr: Image -> string)
    requires i < n <= |doc.pages| && DocRows(doc, n, rasterize, ocr).Success?
    ensures PageText(doc, i, rasterize, ocr).Success?
    ensures DocRowCount(doc, i + 1) <= |DocRows(doc, n, rasterize, ocr).value|
    ensures DocRows(doc, n, rasterize, ocr).value[DocRowCount(doc, i)..DocRowCount(doc, i + 1)]
            == PageRows(doc.FileName(), i + 1, PageText(doc, i, rasterize, ocr).value, PageTables(doc.pages[i]))
  {
    DocRowsGrow(doc, i + 1, n, rasterize, ocr);
    DocRowsCount(doc, i, rasterize, ocr);
    DocRowsCount(doc, i + 1, rasterize, ocr);
    var prev := DocRows(doc, i, rasterize, ocr).value;
    var next := DocRows(doc, i + 1, rasterize, ocr).value;
    var all := DocRows(doc, n, rasterize, ocr).value;
    assert all[|prev|..|next|] == next[|prev|..];
  }

  /**
   * Every row of a document names its file and a page from 1 to `n`; page
   * numbers never decrease; and a row is a text row exactly when it starts
   * a new page, so each page's text row comes before its table rows.
   */
  predicate WellShaped(file: string, n: nat, rows: seq<Row>) {
    && (forall k :: 0 <= k < |rows| ==> rows[k].file == file && 1 <= rows[k].page <= n)
    && (forall k, l :: 0 <= k < l < |rows| ==> rows[k].page <= rows[l].page)
    && (forall k :: 0 <= k < |rows| ==> (rows[k].content.Text? <==> k == 0 || rows[k - 1].page < rows[k].page))
  }

  /** The rows of a document are well shaped. */
  lemma {:induction false} DocRowsShape(doc: Document, n: nat, rasterize: Path -> seq<Image>, ocr: Image -> string)
    requires n <= |doc.pages| && DocRows(doc, n, rasterize, ocr).Success?
    ensures WellShaped(doc.FileName(), n, DocRows(doc, n, rasterize, ocr).value)
  {
    if n > 0 {
      DocRowsShape(doc, n - 1, rasterize, ocr);
      var prev := DocRows(doc, n - 1, rasterize, ocr).value;
      var page := PageRows(doc.FileName(), n, PageText(doc, n - 1, rasterize, ocr).value, PageTables(doc.pages[n - 1]));
      ShapeExtends(doc.FileName(), n, prev, page);
    }
  }

  /** Well-shaped rows of the first `n - 1` pages followed by the rows of page `n` are well shaped. */
  lemma ShapeExtends(file: string, n: nat, prev: seq<Row>, page: seq<Row>)
    requires n > 0 && WellShaped(file, n - 1, prev)
    requires page != [] && page[0].content.Text?
    requires forall k :: 0 <= k < |page| ==> page[k].file == file && page[k].page == n
    requires forall k :: 0 < k < |page| ==> page[k].content.Table?
    ensures WellShaped(file, n, prev + page)
  {
  }

  /**
   * Rows `a` and `b` of the first `n` pages of `doc` differ at most in the
   * text of pages that needed OCR: same length, same file, page and kind at
   * every position, the same table rows, and the same text rows for pages
   * with a text layer.
   */
  predicate AgreeExceptOcrText(doc: Document, n: nat, a: seq<Row>, b: seq<Row>)
    requires n <= |doc.pages|
  {
    |a| == |b| && forall k :: 0 <= k < |a| ==>
      && a[k].file == b[k].file && a[k].page == b[k].page && 1 <= a[k].page <= n
      && a[k].content.Table? == b[k].content.Table?
      && (a[k].content.Table? || !NeedsOcr(doc.pages[a[k].page - 1]) ==> a[k] == b[k])
  }

  /**
   * Whatever the rasterizer and the OCR engine do, a document's table rows
   * and the text rows of its pages with a text layer stay the same: OCR
   * only ever supplies the text of blank pages.
   */
  lemma {:induction false} TablesIgnoreOcr(doc: Document, n: nat,
                                           rasterize: Path -> seq<Image>, ocr: Image -> string,
                                           rasterize': Path -> seq<Image>, ocr': Image -> string)
    requires n <= |doc.pages|
    requires DocRows(doc, n, rasterize, ocr).Success? && DocRows(doc, n, rasterize', ocr').Success?
    ensures AgreeExceptOcrText(doc, n, DocRows(doc, n, rasterize, ocr).value, DocRows(doc, n, rasterize', ocr').value)
  {
    if n > 0 {
      TablesIgnoreOcr(doc, n - 1, rasterize, ocr, rasterize', ocr');
      FallbackPolicy(doc, n - 1, rasterize, ocr, rasterize', ocr');
      var a', b' := DocRows(doc, n - 1, rasterize, ocr).value, DocRows(doc, n - 1, rasterize', ocr').value;
      var tables := PageTables(doc.pages[n - 1]);
      var pa := PageRows(doc.FileName(), n, PageText(doc, n - 1, rasterize, ocr).value, tables);
      var pb := PageRows(doc.FileName(), n, PageText(doc, n - 1, rasterize', ocr').value, tables);
      var a, b := a' + pa, b' + pb;
      forall k | 0 <= k < |a|
        ensures && a[k].file == b[k].file && a[k].page == b[k].page && 1 <= a[k].page <= n
                && a[k].content.Table? == b[k].content.Table?
                && (a[k].content.Table? || !NeedsOcr(doc.pages[a[k].page - 1]) ==> a[k] == b[k])
      {
        if k < |a'| {
          assert a[k] == a'[k] && b[k] == b'[k];
        } else {
          assert a[k] == pa[k - |a'|] && b[k] == pb[k - |a'|];
        }
      }
    }
  }

  /** A document's pages fail exactly when one of them needs OCR and has no image; the first such page names the error. */
  lemma {:induction false} DocFailsAtFirstMissingImage(doc: Document, n: nat,
                                                       rasterize: Path -> seq<Image>, ocr: Image -> string)
    requires n <= |doc.pages|
    ensures DocRows(doc, n, rasterize, ocr).Failure? <==> exists i: nat :: i < n && ImageMissing(doc, i, rasterize)
    ensures DocRows(doc, n, rasterize, ocr).Failure? ==>
              exists i: nat :: && i < n && ImageMissing(doc, i, rasterize)
                               && DocRows(doc, n, rasterize, ocr).error == OcrImageMissing(doc.FileName(), i + 1)
                               && forall j: nat :: j < i ==> !ImageMissing(doc, j, rasterize)
  {
    if n > 0 {
      DocFailsAtFirstMissingImage(doc, n - 1, rasterize, ocr);
      FallbackPolicy(doc, n - 1, rasterize, ocr, rasterize, ocr);
      if DocRows(doc, n - 1, rasterize, ocr).Success? && PageText(doc, n - 1, rasterize, ocr).Failure? {
        assert ImageMissing(doc, n - 1, rasterize);
      }
    }
  }

  /**
   * The page an aborted document's error names is its first page that
   * needs OCR and has no image: so the page `ExtractDocument` stops at is
   * pinned down by the error alone.
   */
  lemma FailingPageIsFirstMissing(doc: Document, stop: nat, rasterize: Path -> seq<Image>, ocr: Image -> string)
    requires DocRows(doc, |doc.pages|, rasterize, ocr) == Failure(OcrImageMissing(doc.FileName(), stop + 1))
    ensures stop < |doc.pages| && ImageMissing(doc, stop, rasterize)
    ensures forall j: nat :: j < stop ==> !ImageMissing(doc, j, rasterize)
  {
    DocFailsAtFirstMissingImage(doc, |doc.pages|, rasterize, ocr);
  }

  /**
   * A run fails exactly when some document has a page that needs OCR and
   * has no image; the error names the first such page of the first such
   * document, and no earlier document has one.
   */
  lemma {:induction false} RunFailsAtFirstMissingImage(docs: seq<Document>, n: nat,
                                                       rasterize: Path -> seq<Image>, ocr: Image -> string)
    requires n <= |docs|
    ensures RunRows(docs, n, rasterize, ocr).Failure? <==>
              exists d: nat, i: nat :: d < n && ImageMissing(docs[d], i, rasterize)
    ensures RunRows(docs, n, rasterize, ocr).Failure? ==>
              exists d: nat, i: nat :: && d < n && ImageMissing(docs[d], i, rasterize)
                                       && RunRows(docs, n, rasterize, ocr).error == OcrImageMissing(docs[d].FileName(), i + 1)
                                       && (forall j: nat :: j < i ==> !ImageMissing(docs[d], j, rasterize))
                                       && forall e: nat, j: nat :: e < d ==> !ImageMissing(docs[e], j, rasterize)
  {
    if n > 0 {
      RunFailsAtFirstMissingImage(docs, n - 1, rasterize, ocr);
      var doc := docs[n - 1];
      DocFailsAtFirstMissingImage(doc, |doc.pages|, rasterize, ocr);
      if RunRows(docs, n - 1, rasterize, ocr).Success? {
        if DocRows(doc, |doc.pages|, rasterize, ocr).Failure? {
          var i: nat :| && i < |doc.pages| && ImageMissing(doc, i, rasterize)
                        && DocRows(doc, |doc.pages|, rasterize, ocr).error == OcrImageMissing(doc.FileName(), i + 1);
          assert ImageMissing(docs[n - 1], i, rasterize);
        }
      }
    }
  }
}
