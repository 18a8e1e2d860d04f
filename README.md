# pdfparser: a verified model of the PDF extraction loop

`pdfparser` walks a directory of PDFs and collects one list of rows. It
visits the PDFs in file-name order (code-point order, as on POSIX systems). For each page of each PDF it does two
things:

- It emits one `text` row. The text is the page's text layer, trimmed. When
  that layer is blank, the text is the OCR result of the page's rasterized
  image.
- It then emits one `table` row per table the PDF library detects on that
  page.

The rows then go to a CSV file. Rasterization is lazy:

- A document is rasterized at most once.
- It happens on the first page that needs OCR.
- The resulting image list is reused for every later blank page of that
  document.

This project models that core in Dafny and proves what the code promises.

## Modules

- `Trimming` (`trimming.dfy`) models Python's `str.strip()`. Whitespace is
  Python's `str.isspace`, written out as a fixed table.
- `Paths` (`paths.dfy`) covers paths as lists of components and the
  default-location rules of `parse_pdfs`.
- `Locator` (`locator.dfy`) models `_iter_pdf_paths`:
  - the `*.pdf` glob over the direct entries of one directory;
  - Python's string order;
  - insertion sort, with a proof that the result does not depend on the
    order in which the directory lists its entries.
- `Extraction` (`extraction.dfy`) models the document and page loops.
  - `ExtractRows` is the document loop, `ExtractDocument` the page loop with
    its per-document raster cache, `PageContent` the fallback decision, and
    `AppendPageRows` the row appends.
  - Each is proved against the specification functions `PageText`,
    `PageRows`, `DocRows`, `RunRows` and `Extract`.
  - Ghost logs record every call of the rasterizer and the OCR engine. For a
    completed run they are proved equal to the call plans `RasterPlan` and
    `OcrPlan`. For an aborted run they are proved sound: each rasterization
    is on its document's first blank page, documents increase, and each OCR
    call is for a blank page.
- `RowShape` (`row_shape.dfy`) proves properties of the rows: count,
  layout, shape, append-only growth, independence of tables from OCR, and
  when a run aborts.
- `CallCounts` (`call_counts.dfy`) proves how often the rasterizer and the
  OCR engine are called.
- `Parser` (`parser.dfy`) models `parse_pdfs` as a whole: resolve the
  locations, list and sort the PDFs, open them, and extract the rows.

## Foreign code

Foreign code is passed in as function-typed parameters:

- `listDir`: the names of a directory's entries;
- `openPdf`: the pages of a PDF, each with an optional text layer and an
  optional list of tables;
- `rasterize`: a PDF's page images (`convert_from_path` at 300 DPI);
- `ocr`: the text of an image (`pytesseract.image_to_string`).

Each parameter is a mathematical function, so the model assumes these calls
are deterministic.

## Errors

An `IndexError` aborts the run. It happens when the image list has no entry
for a page that needs OCR. The model returns `Failure(OcrImageMissing(file,
page))` in that case.

A missing PDFs directory is not an error. `pdfs_dir.glob("*.pdf")` yields
nothing for a directory that does not exist, and the output's parent is
created before writing. So such a run completes and writes a CSV with no
rows. In the model the listing is then empty,
and `Parser.EmptyDirectoryNoRows` shows that the run succeeds with no rows.

## What `parser.py` does not do

`tests/test_parser.py` expects more than `pdfparser/parser.py` implements.
The model follows `parser.py`:

- Rows carry only the file name, the page number and the content. There is
  no OCR-used flag, file size, modification time, page count or image path.
- Rasterized images are never saved.
- No source directory is copied.

## Model

| member | source | states |
|---|---|---|
| `Trimming.Strip` | pdfparser/parser.py:61 | The trimmed text has no whitespace at either end and is no longer than the input. It is empty exactly when the input is all whitespace. |
| `Trimming.StripIsInfix` | pdfparser/parser.py:61 | The trimmed text sits inside the original with only whitespace before and after it, so nothing but edge whitespace is removed. |
| `Trimming.StripKeepsTrimmed` | pdfparser/parser.py:61 | Text with no whitespace at its ends is returned unchanged. |
| `Trimming.StripIdempotent` | pdfparser/parser.py:61 | Stripping twice equals stripping once. |
| `Paths.Path.Join` | pdfparser/parser.py:42 | `p / name` has `p` as its parent and `name` as its last component, and extends `p`'s parts. |
| `Paths.ResolveLocations` | pdfparser/parser.py:36-49 | Explicit `data_dir`, `pdfs_dir` and `output_csv` are used as given. Otherwise `data_dir` is the package data directory, `pdfs_dir` is `data_dir/pdfs` and the output is `data_dir/extracted_content.csv`. |
| `Paths.DefaultOutputBesidePdfs` | pdfparser/parser.py:41-49 | With both defaults, the CSV file and the PDFs directory are siblings. The CSV is neither that directory nor inside it. |
| `Locator.MatchesPdfGlob` | pdfparser/parser.py:16 | Definition: a name matches `*.pdf` when it ends in `.pdf`, case-sensitively. |
| `Locator.Below` | pdfparser/parser.py:16 | Definition: Python's `<=` on strings, lexicographic by code point, with a prefix first. |
| `Locator.BelowTotal` | pdfparser/parser.py:16 | Python's string order is total. |
| `Locator.BelowReflexive` | pdfparser/parser.py:16 | Python's string order is reflexive. |
| `Locator.BelowAntisymmetric` | pdfparser/parser.py:16 | Python's string order is antisymmetric. |
| `Locator.BelowTransitive` | pdfparser/parser.py:16 | Python's string order is transitive. |
| `Locator.Insert` | pdfparser/parser.py:16 | Inserting a name into a sorted list keeps it sorted and adds exactly that name. |
| `Locator.Sort` | pdfparser/parser.py:16 | `sorted` returns a sorted permutation of its input. |
| `Locator.SortedUnique` | pdfparser/parser.py:16 | Two sorted lists holding the same names are equal, so the sorted order is determined by the names alone. |
| `Locator.PdfEntries` | pdfparser/parser.py:16 | The glob keeps exactly the entries matching `*.pdf`, with their multiplicities, and drops every other entry. |
| `Locator.PdfNames` | pdfparser/parser.py:16 | The names yielded are sorted and are exactly the directory's `*.pdf` entries. |
| `Locator.ListingOrderIrrelevant` | pdfparser/parser.py:15-16 | Directory listings holding the same names yield the same PDF sequence. |
| `Locator.IterPdfPaths` | pdfparser/parser.py:15-16 | Each path yielded lies directly inside the PDFs directory (no recursion) and its name matches `*.pdf`. The k-th path's name is the k-th of `PdfNames`, so the paths are exactly the matching entries, in name order. |
| `Extraction.LayerText` | pdfparser/parser.py:61 | The page's text layer, `None` read as `""`, trimmed. The result has no whitespace at its ends, and it is empty exactly when the page needs OCR. |
| `Extraction.NeedsOcr` | pdfparser/parser.py:61-63 | A page needs OCR when its text layer is all whitespace. A page with no text layer always needs OCR. |
| `Extraction.PageTables` | pdfparser/parser.py:77 | Definition: the page's tables, `None` read as no tables. |
| `Extraction.PageText` | pdfparser/parser.py:61-66 | Definition: the trimmed text layer when it is not blank; otherwise the OCR text of the image at the page's index, or `OcrImageMissing(file, page_number)` when there is none. Its properties are stated by `FallbackPolicy`. |
| `Extraction.FallbackPolicy` | pdfparser/parser.py:61-66 | A page with a non-blank text layer gets exactly `Strip` of that layer, non-empty and trimmed, whatever the rasterizer and OCR would do. A blank page gets exactly the OCR text of image `page_number - 1`. A page fails exactly when it is blank and that image is missing. |
| `Extraction.PageRows` | pdfparser/parser.py:68-85 | A page yields one row plus one per table. The text row comes first; the table rows follow in table order. All carry the file name and page number. |
| `Extraction.PageRowsExtend` | pdfparser/parser.py:77-85 | Each table of the inner loop appends exactly its own row. |
| `Extraction.DocRows` | pdfparser/parser.py:60-85 | Definition: the rows of the first `n` pages, page by page, or the first page's error. |
| `Extraction.RunRows` | pdfparser/parser.py:53-85 | Definition: the rows of the first `n` documents, document by document, or the first document's error. |
| `Extraction.Extract` | pdfparser/parser.py:53-85 | Definition: the rows of a whole run, or the error that aborts it. |
| `Extraction.FirstOcrPage` | pdfparser/parser.py:63-65 | Definition: the index of the first page that needs OCR, where the cache gets filled. |
| `Extraction.DocFailureSticks` | pdfparser/parser.py:60-66 | After a page fails, the document's result is that failure; later pages are not processed. |
| `Extraction.RunFailureSticks` | pdfparser/parser.py:55-66 | After a document fails, the run's result is that failure; later documents are not processed. |
| `Extraction.RunStops` | pdfparser/parser.py:55-66 | When the earlier documents succeed and document `d` fails, the whole run ends with document `d`'s error. |
| `Extraction.DocStopsAt` | pdfparser/parser.py:63-66 | When the pages before index `i` succeed and page `i` fails, the document's rows are the error naming page `i + 1`. That page needs OCR and has no image. |
| `Extraction.FirstOcrPageIsFirst` | pdfparser/parser.py:63-65 | `FirstOcrPage` is the earliest page with a blank text layer, and is none only when no page is blank. |
| `Extraction.ExtractRows` | pdfparser/parser.py:53-85 | The document loop returns exactly `Extract` (the rows of all documents, or the first error). A completed run makes exactly the rasterizer and OCR calls of the plans. In every outcome, each rasterization is on its document's first blank page, documents are rasterized in increasing order, and each OCR call is for a blank page. |
| `Extraction.ExtractDocument` | pdfparser/parser.py:57-85 | Starting with an empty cache, the page loop appends exactly the document's rows to the rows so far, or returns the document's error. The calls logged are the document's plans, cut short at the failing page `stop`. The error names page `stop + 1` of the document, and page index `stop` needs OCR and has no image. |
| `Extraction.PageContent` | pdfparser/parser.py:61-66 | The page text is `PageText`. The cache is filled exactly when it was already full or the page is blank, and then holds the document's images. The rasterizer is called only for a blank page with an empty cache. OCR is called only for a blank page with an image. |
| `Extraction.AppendPageRows` | pdfparser/parser.py:68-85 | Appends exactly the page's rows to the rows so far. |
| `Extraction.RunStep` | pdfparser/parser.py:55-59 | Finishing one document extends the run's rows and both call plans by that document's rows and plans. |
| `Extraction.DocStep` | pdfparser/parser.py:60-85 | One page extends the document's rows by its page rows, or fails with its error. The rasterization plan gains that page only if it is the first blank one. The OCR plan gains it if it is blank. |
| `Extraction.FirstOcrPageStable` | pdfparser/parser.py:64-65 | Once a blank page has been found, later pages do not change which page is first. |
| `Extraction.DocOcrPlanPrefix` | pdfparser/parser.py:63-66 | The OCR calls for fewer pages are a prefix of those for more. |
| `Extraction.PlansSound` | pdfparser/parser.py:55-66 | The call plans of a completed run are sound. |
| `Extraction.PartialLogsSound` | pdfparser/parser.py:55-66 | The call logs of a run aborted at a blank page are sound. |
| `Extraction.RasterPlanSound` | pdfparser/parser.py:57 | The rasterization plan is sound. |
| `Extraction.RasterPlanBelow` | pdfparser/parser.py:55-57 | The rasterizations of the first `n` documents concern only those documents. |
| `Extraction.RasterPlanAtFirstOcrPage` | pdfparser/parser.py:64-65 | Every rasterization happens on its document's first blank page. |
| `Extraction.RasterPlanIncreasing` | pdfparser/parser.py:55-65 | Rasterizations name strictly increasing documents, so the cache is never shared between documents. |
| `Extraction.OcrPlanSound` | pdfparser/parser.py:63-66 | Every OCR call of the run plan is for a blank page. |
| `Extraction.DocOcrPlanSound` | pdfparser/parser.py:63-66 | Every OCR call of a document plan is for a blank page. |
| `RowShape.DocRowsCount` | pdfparser/parser.py:60-85 | A document yields one row per page plus one per table. |
| `RowShape.RunRowsCount` | pdfparser/parser.py:53-85 | A completed run yields, over all documents and pages, one row per page plus one per table. |
| `RowShape.DocRowsGrow` | pdfparser/parser.py:68-85 | The rows of fewer pages are a prefix of the rows of more pages, so rows are only appended. |
| `RowShape.RunRowsGrow` | pdfparser/parser.py:53-85 | When more documents succeed, fewer succeed too, and their rows are a prefix of the rows of more documents. |
| `RowShape.DocRowsLayout` | pdfparser/parser.py:60-85 | In a completed document, page `i`'s rows occupy a fixed slice given by the row counts of the earlier pages: its text row (with that page's text), then its tables in order. |
| `RowShape.DocRowsShape` | pdfparser/parser.py:60-85 | Every row names its document's file and a page from 1 to the page count. Page numbers never decrease. A row is a text row exactly when it starts a new page. |
| `RowShape.ShapeExtends` | pdfparser/parser.py:68-85 | Appending a page's rows (text row first, page number one higher) to well-shaped rows keeps them well shaped. |
| `RowShape.TablesIgnoreOcr` | pdfparser/parser.py:77-84 | For any two rasterizers and OCR engines, when both runs complete, a document's rows match position by position. File, page, kind and every table row are equal. Text rows differ only for blank pages. |
| `RowShape.DocFailsAtFirstMissingImage` | pdfparser/parser.py:63-66 | A document fails exactly when some blank page has no image. The error names the first such page. |
| `RowShape.FailingPageIsFirstMissing` | pdfparser/parser.py:63-66 | When a document's error names page `stop + 1`, page index `stop` is its first page that needs OCR and has no image. Every earlier page either has a text layer or has an image. |
| `RowShape.RunFailsAtFirstMissingImage` | pdfparser/parser.py:55-66 | A run fails exactly when some document has a blank page with no image. The error names the first such page of the first such document: no earlier document has a missing image, and no earlier page of that document does. |
| `CallCounts.CallsForAppend` | pdfparser/parser.py:55-57 | Call counts over two logs add up. |
| `CallCounts.CallsForAbsent` | pdfparser/parser.py:55-57 | A log with no entry for a document counts no call for it. |
| `CallCounts.RasterizedAtMostOnce` | pdfparser/parser.py:57-65 | In any sound log, so in every run, completed or aborted, each document is rasterized at most once, and only if one of its pages is blank. |
| `CallCounts.RasterPlanCalls` | pdfparser/parser.py:55-65 | A completed run rasterizes each document exactly once if it has a blank page, and never otherwise. |
| `CallCounts.DocRasterPlanCalls` | pdfparser/parser.py:57-65 | A document's own plan rasterizes it once exactly when it has a blank page, and no other document. |
| `CallCounts.DocOcrPlanExact` | pdfparser/parser.py:60-66 | A document's OCR calls are for exactly its blank pages. |
| `CallCounts.OcrPlanExact` | pdfparser/parser.py:55-66 | A completed run's OCR calls are for exactly the blank pages of all documents. |
| `Parser.Documents` | pdfparser/parser.py:55-59 | The documents opened are those `_iter_pdf_paths` yields. The k-th file name is the k-th of `PdfNames`, in name order, each lying in the PDFs directory and matching `*.pdf`, with the pages `openPdf` gives. |
| `Parser.InputDocuments` | pdfparser/parser.py:41-44 | Definition: the documents of the resolved PDFs directory, listed and opened. |
| `Parser.EmptyDirectoryNoRows` | pdfparser/parser.py:15-16 | When the resolved PDFs directory lists no `*.pdf` entry, as with a missing directory, no document is opened and the run succeeds with no rows. |
| `Parser.RowsInFileOrder` | pdfparser/parser.py:55-85 | With documents in name order, the rows are in file-name order. |
| `Parser.ParsePdfs` | pdfparser/parser.py:36-89 | `parse_pdfs` returns the resolved output path and the rows `Extract` gives for the sorted PDFs, or the aborting error. A completed run has one row per page plus one per table, in file-name order. Every run rasterizes each document at most once, and only if it has a blank page. A completed run rasterizes every document that has a blank page and calls OCR for exactly the blank pages. |
| `Parser.BlankPageExample` | pdfparser/parser.py:53-85 | For one PDF with a text page and a blank page holding one table, the rows are the text row, the OCR text row and the table row. With fewer than two images the run aborts at page 2. |

## Left out

- Parsing, rasterization and OCR (`pdfplumber`, `pdf2image` and `pytesseract`) are foreign code and appear only as the parameters `openPdf`, `rasterize` and `ocr`. Their results are not modelled, and neither is the 300 DPI setting.
- Building the pandas DataFrame, rendering table grids into CSV cells, `mkdir` of the output's parent and writing the CSV file are I/O. `ParsePdfs` returns the output path and the rows it would write.
- The `logging` calls and the opening and closing of each PDF by the `with` block are not modelled. A document is given as its pages.
- The package's own data directory, `Path(__file__).parent.parent / "data"`, depends on the install location. It is the parameter `packageDataDir`.
- `Path(...)` conversion of explicit arguments and pathlib's normalisation of odd components (`.`, empty names, separators inside a name) are not modelled. A path is its list of components.
- Locator.MatchesPdfGlob: assumes POSIX behaviour. The `*.pdf` glob is case-sensitive, so on Windows, where pathlib matches case-insensitively and `A.PDF` would be processed, the model differs.
- Locator.Below: assumes POSIX ordering by code point. On Windows pathlib compares case-folded parts, and that order is not modelled.
- The directory listing is the parameter `listDir`. The glob matching a subdirectory named `*.pdf` is not modelled; every entry is treated as a file.
- Trimming.IsSpace: a fixed table of Python's whitespace characters, not a full Unicode database lookup.
- Exceptions other than the missing-image `IndexError` are not modelled. These include a corrupt PDF, OCR engine errors and an unwritable output file. A missing PDFs directory raises nothing (see Errors).
- Extraction.ExtractRows: records the rasterizer calls as a ghost log of pages rather than a counter. `CallCounts.CallsFor` gives the per-document count.
- `pdfparser/cli.py` is argument parsing and logging setup that forwards to `parse_pdfs`. It is not part of this model.
