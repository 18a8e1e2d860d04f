/**
 * How often `parse_pdfs` calls the rasterizer and the OCR engine: each
 * document is rasterized at most once, exactly when one of its pages has a
 * blank text layer, and OCR runs for exactly the blank pages.
 */
module CallCounts {
  import opened Extraction

  /** Counting the calls for a document over two logs in a row adds up. */
  lemma {:induction false} CallsForAppend(a: seq<PageRef>, b: seq<PageRef>, d: nat)
    ensures CallsFor(a + b, d) == CallsFor(a, d) + CallsFor(b, d)
  {
    if b != [] {
      assert (a + b)[..|a + b| - 1] == a + b[..|b| - 1];
      CallsForAppend(a, b[..|b| - 1], d);
    } else {
      assert a + b == a;
    }
  }

  /** A log with no entry for document `d` counts no call for it. */
  lemma {:induction false} CallsForAbsent(log: seq<PageRef>, d: nat)
    requires forall k :: 0 <= k < |log| ==> log[k].doc != d
    ensures CallsFor(log, d) == 0
  {
    if log != [] {
      CallsForAbsent(log[..|log| - 1], d);
    }
  }

  /**
   * In any sound rasterization log (and the log of every run, completed or
   * aborted, is sound) a document is rasterized at most once, and only when
   * one of its pages needs OCR.
   */
  lemma {:induction false} RasterizedAtMostOnce(docs: seq<Document>, log: seq<PageRef>, d: nat)
    requires RasterLogSound(docs, log)
    ensures CallsFor(log, d) <= 1
    ensures CallsFor(log, d) == 1 ==> d < |docs| && DocNeedsOcr(docs[d])
  {
    if log != [] {
      var prev := log[..|log| - 1];
      var last := log[|log| - 1];
      assert forall k :: 0 <= k < |prev| ==> prev[k] == log[k];
      RasterizedAtMostOnce(docs, prev, d);
      if last.doc == d {
        assert RasterizedAtFirstOcrPage(docs, last);
        CallsForAbsent(prev, d);
      }
    }
  }

  /** A run over the first `n` documents rasterizes document `d` once if `d` is among them and needs OCR, and never otherwise. */
  lemma {:induction false} RasterPlanCalls(docs: seq<Document>, n: nat, d: nat)
    requires n <= |docs|
    ensures CallsFor(RasterPlan(docs, n), d) == if d < n && DocNeedsOcr(docs[d]) then 1 else 0
  {
    if n > 0 {
      RasterPlanCalls(docs, n - 1, d);
      var prev, own := RasterPlan(docs, n - 1), DocRasterPlan(docs, n - 1, |docs[n - 1].pages|);
      assert RasterPlan(docs, n) == prev + own;
      CallsForAppend(prev, own, d);
      DocRasterPlanCalls(docs, n - 1, d);
      if d == n - 1 {
        assert CallsFor(prev, d) == 0;
      } else {
        assert CallsFor(own, d) == 0;
      }
    }
  }

  /** Document `e` alone is rasterized once for document `d` when they are the same and it needs OCR. */
  lemma DocRasterPlanCalls(docs: seq<Document>, e: nat, d: nat)
    requires e < |docs|
    ensures CallsFor(DocRasterPlan(docs, e, |docs[e].pages|), d) == if d == e && DocNeedsOcr(docs[e]) then 1 else 0
  {
  }

  /** The OCR calls for document `d` up to page `n` are exactly for its pages before `n` that need OCR. */
  lemma {:induction false} DocOcrPlanExact(docs: seq<Document>, d: nat, n: nat)
    requires d < |docs| && n <= |docs[d].pages|
    ensures forall e :: e in DocOcrPlan(docs, d, n) <==> e.doc == d && e.page < n && NeedsOcr(docs[d].pages[e.page])
  {
    if n > 0 {
      DocOcrPlanExact(docs, d, n - 1);
    }
  }

  /**
   * A completed run calls OCR exactly for the pages that need it: for
   * every page of every document whose trimmed text layer is empty, and
   * for no other page.
   */
  lemma {:induction false} OcrPlanExact(docs: seq<Document>, n: nat)
    requires n <= |docs|
    ensures forall e :: e in OcrPlan(docs, n) <==> e.doc < n && OcrPageNeedsIt(docs, e)
  {
    if n > 0 {
      OcrPlanExact(docs, n - 1);
      DocOcrPlanExact(docs, n - 1, |docs[n - 1].pages|);
    }
  }
}
