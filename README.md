# pdf-elasticsearch-indexer, modelled in Dafny

The indexer is a command-line script with two actions. `upload <pdf_path>`
extracts a PDF's text and indexes it in Elasticsearch. `search <words...>`
runs a fuzzy match query and prints each hit's file name, path and a
highlighted snippet of up to 50 characters.

This project models the script's deterministic core:

- the two text-extraction strategies and the choice between them
  (`extraction.dfy`): direct extraction of each page's native text layer,
  and OCR of each embedded image, page by page and image by image;
- the document record an upload submits, whose file name is the base name
  of the path (`indexing.dfy`, built on `strings.dfy`);
- the loop that formats search hits (`formatting.dfy`);
- the `__main__` dispatch (`cli.dfy`), as a method that returns how the
  process ends and the ordered sequence of its effects: checking and
  creating the index, extracting, indexing the document, searching, and
  printing.

The PDF library and the OCR engine are abstract. A document is a sequence
of pages. Each page has a native text string and an ordered list of
images. "Decode, convert to grayscale, recognise" is a function `ocr` from
an image to a string. A library failure is a position at which an
exception is raised:

- for the direct strategy, a page index (0 also stands for a failure to
  open the file);
- for the OCR strategy, a page whose loading or image listing fails, or
  one image of one page.

Each strategy has a single `try` around its whole loop. A failure
therefore ends that strategy, which returns the text accumulated so far.
The backend and the filesystem are oracles in a `World` value. These are
whether a path exists, the answer to the index existence check, whether
index creation succeeds, the document at a path and the hits returned for
a query.

Three behaviours of the code are easy to misread. The model keeps them as
written:

- An unrecognised action prints its message and ends normally, with exit
  status 0. The code has no `sys.exit(1)` on that branch.
- A failure part-way through a strategy returns the partial text, not `""`.
  A non-empty partial direct result is returned as the document's text,
  and OCR does not run.
- A failure on one image ends the whole OCR strategy. It does not skip
  only that image.

## Model

| member | source | states |
|---|---|---|
| `Extraction.PagesRead` | pdf-elasticsearch-indexer.py:42-48 | the direct strategy reads every page when nothing fails, and never more pages than the document has |
| `Extraction.ExtractTextFromTextPdf` | pdf-elasticsearch-indexer.py:41-48 | with no failure the result is the native text of every page in page order; with a failure at page k it is the native text of the pages before k |
| `Extraction.ExtractTextFromScannedPdf` | pdf-elasticsearch-indexer.py:60-77 | with no failure the result is the OCR text of every image, in page order and then listed image order; a failure keeps exactly the OCR text of the pages and images before it |
| `Extraction.ExtractTextFromPdf` | pdf-elasticsearch-indexer.py:89-92 | OCR runs if and only if the direct result is exactly `""`; the direct result is returned unchanged when it is non-empty, and the OCR result otherwise |
| `Extraction.NativeTextAppend` | pdf-elasticsearch-indexer.py:44-45 | the direct text of two runs of pages is the concatenation of their direct texts |
| `Extraction.NativeTextEmptyIff` | pdf-elasticsearch-indexer.py:44-45 | the concatenated native text is empty exactly when every page's native text is empty |
| `Extraction.DirectFailureKeepsPrefix` | pdf-elasticsearch-indexer.py:42-48 | a failure at page k returns a prefix of the full native text; the full text is that result followed by the text of pages k onwards, so nothing from page k or later is included |
| `Extraction.FallbackIff` | pdf-elasticsearch-indexer.py:89-91 | the OCR fallback fires exactly when every page read before the failure (all pages, if none fails) has empty native text; whitespace counts as text |
| `Extraction.TextLayerWins` | pdf-elasticsearch-indexer.py:89-92 | with no direct failure, one page with non-empty native text makes the extracted text the whole native text, whatever the OCR strategy would give |
| `Extraction.PartialTextSuppressesOcr` | pdf-elasticsearch-indexer.py:42-48 | a direct failure after a page with text yields the non-empty partial text as the document's text |
| `Extraction.ScannedDocumentUsesOcr` | pdf-elasticsearch-indexer.py:89-91 | a document with no native text is extracted by OCR alone; with no OCR failure the result is the OCR text of all images in page-then-image order |
| `Extraction.ImagesOcrAppend` | pdf-elasticsearch-indexer.py:65-74 | the OCR text of two runs of images is the concatenation of their OCR texts |
| `Extraction.OcrTextIsFlat` | pdf-elasticsearch-indexer.py:63-74 | the nested page and image loops give the same text as one pass over the flat page-then-image sequence of images |
| `Extraction.AllImagesPrefix` | pdf-elasticsearch-indexer.py:63-65 | the images of the first p+1 pages are those of the first p pages followed by page p's images, and they form a prefix of the document's images |
| `Extraction.ScannedResultIsFlatPrefix` | pdf-elasticsearch-indexer.py:61-77 | whatever fails, the OCR result is the OCR text of exactly the images before the failure position, in page-then-image order |
| `Extraction.ImagesOcrEmptyIff` | pdf-elasticsearch-indexer.py:65-74 | the OCR text of a run of images is empty exactly when every image's recognised text is empty |
| `Strings.RFind` | pdf-elasticsearch-indexer.py:102 | the result is -1 or an index holding the character, and no later index holds it |
| `Strings.Basename` | pdf-elasticsearch-indexer.py:102 | the file name has no '/', is a suffix of the path, and is preceded in the path by '/' unless it is the whole path |
| `Strings.BasenameAfterSeparator` | pdf-elasticsearch-indexer.py:102 | the base name of `dir + "/" + name` is `name` when `name` holds no '/' |
| `Strings.Join` | pdf-elasticsearch-indexer.py:172 | `" ".join` of no words is `""`, and a join of at least one word starts with the first word; `SplitJoin` and `JoinLength` below give its content and length |
| `Strings.SplitLast` | pdf-elasticsearch-indexer.py:172 | splitting at spaces a string that ends in a space and a space-free word gives the pieces before it followed by that word |
| `Strings.SplitJoin` | pdf-elasticsearch-indexer.py:172 | splitting the joined query at spaces gives back the arguments when there is at least one and none contains a space |
| `Strings.JoinLength` | pdf-elasticsearch-indexer.py:172 | the joined query is as long as the arguments together plus one space between each pair of neighbours |
| `Cli.Query` | pdf-elasticsearch-indexer.py:172 | the search query is the arguments after the action joined by single spaces: `""` when there are none, otherwise starting with the first of them |
| `Indexing.DocumentRecord` | pdf-elasticsearch-indexer.py:102-104 | the record stores the extracted text and the path as given, and as file name the last '/'-free component of the path |
| `Formatting.FirstFragment` | pdf-elasticsearch-indexer.py:181 | the first highlight fragment of the text field, or `""` when the hit has no `highlight` or no `text` entry in it |
| `Formatting.FormatHit` | pdf-elasticsearch-indexer.py:181-187 | file name and path are copied from the hit's `_source`; the snippet is a prefix of the first fragment of at most 50 characters, the whole fragment when it has at most 50, exactly 50 when it is longer, and `""` without a text highlight |
| `Formatting.FormatHits` | pdf-elasticsearch-indexer.py:179-188 | one result per hit, in the hits' order, each the formatted hit |
| `Cli.Upload` | pdf-elasticsearch-indexer.py:149-165 | a missing file exits 1 before the index is checked; an index check that raises anything but not-found is uncaught; the index is created only when reported missing, and a failed creation exits 1 before extraction; otherwise the text is extracted, the record with the path's base name is indexed, and success is reported |
| `Cli.SearchFor` | pdf-elasticsearch-indexer.py:173-190 | no hits exits 1 after printing that nothing was found; a hit with an empty fragment list raises before anything is printed; otherwise exactly one result per hit is printed, in order, each the formatted hit |
| `Cli.Dispatch` | pdf-elasticsearch-indexer.py:138-193 | exit status 1 with only its message for fewer than 2 arguments, upload without a path, a missing file (before any index check) and search without a query; an uncaught exception also exits 1; an index is created only when the check reports it missing, and a failed creation exits 1 before extraction; an upload then extracts, indexes the record whose file name is the path's base name, and reports success; a search uses the arguments after the action joined by single spaces, exits 1 when there are no hits, and otherwise prints the hits formatted one for one; an unknown action ends normally with status 0; a document is indexed only on a run that checked the index first, reports success last and exits 0 |

## Left out

- Client construction, the connection check and its fatal exit at start-up (pdf-elasticsearch-indexer.py:18-29): network I/O.
- PyMuPDF parsing, PIL decoding, OpenCV grayscale conversion and Tesseract recognition: these are the `ocr` function parameter and the abstract page model.
- Ranking, fuzziness and highlight generation inside Elasticsearch: the hits for a query are an oracle, `World.search`.
- A failed search (pdf-elasticsearch-indexer.py:127-129) returns an empty list, the same as no hits. The oracle returns that list, so the two cannot be told apart here either.
- A failed `es.index` call (pdf-elasticsearch-indexer.py:105-106) is only logged. The `IndexDocument` effect records the attempt, and the run continues the same way in both cases.
- JSON pretty-printing, the wording of printed messages, and logging: the messages are constructors of `Message`.
- `os.path.exists` is the oracle `World.fileExists`.
- A hit whose `_source` lacks `filename` or `path` would raise `KeyError`. Documents are only ever indexed with both fields, so a hit's source is a `Document`.
- `Strings.Basename` models POSIX `os.path.basename` only. Windows path rules are not modelled.
