/**
 * Text extraction from a PDF: the direct strategy (the native text layer of
 * every page), the OCR strategy (every embedded image of every page through
 * grayscale conversion and character recognition) and the choice between
 * them.
 *
 * The PDF library and the OCR engine are abstract: a document is the
 * sequence of its pages, each with its native text and its images in the
 * order the document lists them, and "decode, convert to grayscale,
 * recognise" is a function `ocr` from an image to the text it yields. A
 * library failure is a position at which an exception is raised; each
 * strategy has one handler around its whole loop, so a failure ends that
 * strategy and it returns what it had accumulated until then.
 */
module Extraction {
  import opened Wrappers

  /** An embedded raster image: its cross-reference number and raw bytes. */
  datatype Image = Image(xref: nat, data: seq<bv8>)

  /** A page: its native text layer and its embedded images, in order. */
  datatype Page = Page(nativeText: string, images: seq<Image>)

  type Pdf = seq<Page>

  /** Where the OCR strategy's handler is entered. `ListFault(p)`: opening
      the document (p = 0), loading page p or listing its images raises.
      `ImageFault(p, j)`: extracting, decoding, converting or recognising
      image j of page p raises. A position the document does not have is
      never reached, so it raises nothing. */
  datatype OcrFault = ListFault(page: nat) | ImageFault(page: nat, image: nat)

  // ---------------------------------------------------------------------
  // Direct strategy

  /** The native text of the pages, in page order. */
  function NativeText(pages: seq<Page>): string
  {
    if |pages| == 0 then ""
    else NativeText(pages[..|pages| - 1]) + pages[|pages| - 1].nativeText
  }

  /** How many pages the direct strategy reads before a failure at page
      `fault` (opening the document counts as a failure at page 0). */
  function PagesRead(pdf: Pdf, fault: Option<nat>): (n: nat)
    ensures n <= |pdf|
    ensures fault.None? ==> n == |pdf|
  {
    if fault.Some? && fault.value < |pdf| then fault.value else |pdf|
  }

  /** What `extract_text_from_text_pdf` returns. */
  function DirectResult(pdf: Pdf, fault: Option<nat>): string
  {
    NativeText(pdf[..PagesRead(pdf, fault)])
  }

  /** `extract_text_from_text_pdf`: append each page's text in turn; a
      failure at page `fault` abandons the loop and keeps the text so far. */
  method ExtractTextFromTextPdf(pdf: Pdf, fault: Option<nat>) returns (text: string)
    ensures fault.None? ==> text == NativeText(pdf)
    ensures text == DirectResult(pdf, fault)
  {
    text := "";
    var i := 0;
    while i < |pdf|
      invariant 0 <= i <= |pdf|
      invariant i <= PagesRead(pdf, fault)
      invariant text == NativeText(pdf[..i])
    {
      if fault == Some(i) {
        return;
      }
      assert pdf[..i + 1][..i] == pdf[..i];
      text := text + pdf[i].nativeText;
      i := i + 1;
    }
    assert pdf[..i] == pdf;
  }

  // ---------------------------------------------------------------------
  // OCR strategy

  /** The recognised text of the images, in order. */
  function ImagesOcr(images: seq<Image>, ocr: Image -> string): string
  {
    if |images| == 0 then ""
    else ImagesOcr(images[..|images| - 1], ocr) + ocr(images[|images| - 1])
  }

  /** The recognised text of every image, page by page. */
  function OcrText(pages: seq<Page>, ocr: Image -> string): string
  {
    if |pages| == 0 then ""
    else OcrText(pages[..|pages| - 1], ocr) + ImagesOcr(pages[|pages| - 1].images, ocr)
  }

  /** Whether `fault` names a position that `pdf` has, so that it raises. */
  predicate Reached(pdf: Pdf, fault: OcrFault)
  {
    match fault
    case ListFault(p) => p < |pdf|
    case ImageFault(p, j) => p < |pdf| && j < |pdf[p].images|
  }

  /** What `extract_text_from_scanned_pdf` returns. */
  function ScannedResult(pdf: Pdf, ocr: Image -> string, fault: Option<OcrFault>): string
  {
    if fault.None? || !Reached(pdf, fault.value) then OcrText(pdf, ocr)
    else match fault.value
      case ListFault(p) => OcrText(pdf[..p], ocr)
      case ImageFault(p, j) => OcrText(pdf[..p], ocr) + ImagesOcr(pdf[p].images[..j], ocr)
  }

  /** The fault has not been raised by the time page `i` starts. */
  predicate PendingAtPage(pdf: Pdf, fault: Option<OcrFault>, i: nat)
  {
    fault.None? || !Reached(pdf, fault.value) || fault.value.page >= i
  }

  /** `extract_text_from_scanned_pdf`: for each page, for each image, append
      its recognised text; a failure abandons both loops and keeps the text
      so far. */
  method ExtractTextFromScannedPdf(pdf: Pdf, ocr: Image -> string, fault: Option<OcrFault>)
    returns (text: string)
    ensures fault.None? ==> text == OcrText(pdf, ocr)
    ensures text == ScannedResult(pdf, ocr, fault)
  {
    text := "";
    var i := 0;
    while i < |pdf|
      invariant 0 <= i <= |pdf|
      invariant PendingAtPage(pdf, fault, i)
      invariant text == OcrText(pdf[..i], ocr)
    {
      if fault == Some(ListFault(i)) {
        return;
      }
      var images := pdf[i].images;
      var j := 0;
      while j < |images|
        invariant 0 <= j <= |images|
        invariant forall k :: fault == Some(ImageFault(i, k)) ==> j <= k
        invariant text == OcrText(pdf[..i], ocr) + ImagesOcr(images[..j], ocr)
      {
        if fault == Some(ImageFault(i, j)) {
          return;
        }
        assert images[..j + 1][..j] == images[..j];
        text := text + ocr(images[j]);
        j := j + 1;
      }
      assert images[..j] == images;
      assert pdf[..i + 1][..i] == pdf[..i];
      i := i + 1;
    }
    assert pdf[..i] == pdf;
  }

  // ---------------------------------------------------------------------
  // Choosing a strategy

  /** What `extract_text_from_pdf` returns: the direct result unless it is
      exactly the empty string, in which case the OCR result. */
  function ExtractedText(pdf: Pdf, ocr: Image -> string, directFault: Option<nat>,
                         ocrFault: Option<OcrFault>): string
  {
    var direct := DirectResult(pdf, directFault);
    if direct == "" then ScannedResult(pdf, ocr, ocrFault) else direct
  }

  /** `extract_text_from_pdf`. `ranOcr` says whether the OCR strategy ran. */
  method ExtractTextFromPdf(pdf: Pdf, ocr: Image -> string, directFault: Option<nat>,
                            ocrFault: Option<OcrFault>)
    returns (text: string, ranOcr: bool)
    ensures ranOcr <==> DirectResult(pdf, directFault) == ""
    ensures !ranOcr ==> text == DirectResult(pdf, directFault)
    ensures ranOcr ==> text == ScannedResult(pdf, ocr, ocrFault)
    ensures text == ExtractedText(pdf, ocr, directFault, ocrFault)
  {
    text := ExtractTextFromTextPdf(pdf, directFault);
    ranOcr := text == "";
    if ranOcr {
      text := ExtractTextFromScannedPdf(pdf, ocr, ocrFault);
    }
  }

  // ---------------------------------------------------------------------
  // Properties of the direct strategy

  lemma {:induction false} NativeTextAppend(a: seq<Page>, b: seq<Page>)
    ensures NativeText(a + b) == NativeText(a) + NativeText(b)
    decreases |b|
  {
    if |b| == 0 {
      assert a + b == a;
    } else {
      var b' := b[..|b| - 1];
      assert (a + b)[..|a + b| - 1] == a + b';
      NativeTextAppend(a, b');
    }
  }

  /** The native text is empty exactly when every page's native text is. */
  lemma {:induction false} NativeTextEmptyIff(pages: seq<Page>)
    ensures NativeText(pages) == "" <==> forall i :: 0 <= i < |pages| ==> pages[i].nativeText == ""
  {
    if |pages| > 0 {
      var init := pages[..|pages| - 1];
      NativeTextEmptyIff(init);
      if NativeText(pages) == "" {
        forall i | 0 <= i < |pages| ensures pages[i].nativeText == "" {
          if i < |pages| - 1 {
            assert pages[i] == init[i];
          }
        }
      }
    }
  }

  /** A failure at page k keeps exactly the text of the pages before k: the
      full native text is that result followed by the text of pages k.. . */
  lemma DirectFailureKeepsPrefix(pdf: Pdf, k: nat)
    requires k < |pdf|
    ensures NativeText(pdf) == DirectResult(pdf, Some(k)) + NativeText(pdf[k..])
    ensures DirectResult(pdf, Some(k)) <= NativeText(pdf)
  {
    assert pdf == pdf[..k] + pdf[k..];
    NativeTextAppend(pdf[..k], pdf[k..]);
  }

  /** The OCR fallback fires exactly when every page read before the
      failure (all pages, if none) has an empty native text layer. */
  lemma FallbackIff(pdf: Pdf, directFault: Option<nat>)
    ensures DirectResult(pdf, directFault) == ""
        <==> forall i :: 0 <= i < PagesRead(pdf, directFault) ==> pdf[i].nativeText == ""
  {
    var n := PagesRead(pdf, directFault);
    NativeTextEmptyIff(pdf[..n]);
    assert forall i :: 0 <= i < n ==> pdf[..n][i] == pdf[i];
  }

  /** With no failure and some page carrying native text (whitespace
      included), the extracted text is the whole native text and OCR is
      not consulted. */
  lemma TextLayerWins(pdf: Pdf, ocr: Image -> string, ocrFault: Option<OcrFault>, i: nat)
    requires i < |pdf| && pdf[i].nativeText != ""
    ensures ExtractedText(pdf, ocr, None, ocrFault) == NativeText(pdf)
  {
    FallbackIff(pdf, None);
    assert pdf[..PagesRead(pdf, None)] == pdf;
  }

  /** A failure after a page with native text leaves a non-empty partial
      result, which is returned as the document's text: OCR does not run. */
  lemma PartialTextSuppressesOcr(pdf: Pdf, ocr: Image -> string, ocrFault: Option<OcrFault>,
                                 k: nat, i: nat)
    requires i < k < |pdf| && pdf[i].nativeText != ""
    ensures ExtractedText(pdf, ocr, Some(k), ocrFault) == NativeText(pdf[..k]) != ""
  {
    FallbackIff(pdf, Some(k));
  }

  /** A document without native text is extracted by OCR alone, whatever
      the direct strategy's failure; without failures that is every
      image's recognised text, page by page and image by image. */
  lemma ScannedDocumentUsesOcr(pdf: Pdf, ocr: Image -> string, directFault: Option<nat>,
                               ocrFault: Option<OcrFault>)
    requires forall i :: 0 <= i < |pdf| ==> pdf[i].nativeText == ""
    ensures ExtractedText(pdf, ocr, directFault, ocrFault) == ScannedResult(pdf, ocr, ocrFault)
    ensures ocrFault.None? ==>
      ExtractedText(pdf, ocr, directFault, ocrFault) == ImagesOcr(AllImages(pdf), ocr)
  {
    FallbackIff(pdf, directFault);
    OcrTextIsFlat(pdf, ocr);
  }

  // ---------------------------------------------------------------------
  // Properties of the OCR strategy

  /** All images of the document, page by page, each page's in listed order. */
  function AllImages(pages: seq<Page>): seq<Image>
  {
    if |pages| == 0 then []
    else AllImages(pages[..|pages| - 1]) + pages[|pages| - 1].images
  }

  lemma {:induction false} ImagesOcrAppend(a: seq<Image>, b: seq<Image>, ocr: Image -> string)
    ensures ImagesOcr(a + b, ocr) == ImagesOcr(a, ocr) + ImagesOcr(b, ocr)
    decreases |b|
  {
    if |b| == 0 {
      assert a + b == a;
    } else {
      var b' := b[..|b| - 1];
      assert (a + b)[..|a + b| - 1] == a + b';
      ImagesOcrAppend(a, b', ocr);
    }
  }

  /** The OCR text is the recognised text of the flat image sequence. */
  lemma {:induction false} OcrTextIsFlat(pages: seq<Page>, ocr: Image -> string)
    ensures OcrText(pages, ocr) == ImagesOcr(AllImages(pages), ocr)
  {
    if |pages| > 0 {
      var init := pages[..|pages| - 1];
      OcrTextIsFlat(init, ocr);
      ImagesOcrAppend(AllImages(init), pages[|pages| - 1].images, ocr);
    }
  }

  /** The page-by-page image sequence of a prefix of the pages is a prefix
      of the document's. */
  lemma {:induction false} AllImagesPrefix(pages: seq<Page>, p: nat)
    requires p < |pages|
    ensures AllImages(pages[..p + 1]) == AllImages(pages[..p]) + pages[p].images
    ensures AllImages(pages[..p + 1]) <= AllImages(pages)
    decreases |pages|
  {
    assert pages[..p + 1][..p] == pages[..p];
    if p + 1 < |pages| {
      var init := pages[..|pages| - 1];
      AllImagesPrefix(init, p);
      assert init[..p + 1] == pages[..p + 1];
      assert init[..p] == pages[..p];
    } else {
      assert pages[..p + 1] == pages;
    }
  }

  /** How many images, counted in page-then-image order, the OCR strategy
      recognises before its failure. */
  function ImagesRead(pdf: Pdf, fault: Option<OcrFault>): nat
  {
    if fault.None? || !Reached(pdf, fault.value) then |AllImages(pdf)|
    else match fault.value
      case ListFault(p) => |AllImages(pdf[..p])|
      case ImageFault(p, j) => |AllImages(pdf[..p])| + j
  }

  /** Whatever the failure, the OCR result is the recognised text of exactly
      the images before the failure position in page-then-image order. */
  lemma ScannedResultIsFlatPrefix(pdf: Pdf, ocr: Image -> string, fault: Option<OcrFault>)
    ensures ImagesRead(pdf, fault) <= |AllImages(pdf)|
    ensures ScannedResult(pdf, ocr, fault) == ImagesOcr(AllImages(pdf)[..ImagesRead(pdf, fault)], ocr)
  {
    if fault.None? || !Reached(pdf, fault.value) {
      var all := AllImages(pdf);
      assert ScannedResult(pdf, ocr, fault) == OcrText(pdf, ocr);
      assert ImagesRead(pdf, fault) == |all|;
      OcrTextIsFlat(pdf, ocr);
      assert all[..|all|] == all;
    } else if fault.value.ListFault? {
      var p := fault.value.page;
      assert ScannedResult(pdf, ocr, fault) == OcrText(pdf[..p], ocr);
      assert ImagesRead(pdf, fault) == |AllImages(pdf[..p])|;
      ListFaultIsFlatPrefix(pdf, ocr, p);
    } else {
      var p, j := fault.value.page, fault.value.image;
      assert ScannedResult(pdf, ocr, fault) == OcrText(pdf[..p], ocr) + ImagesOcr(pdf[p].images[..j], ocr);
      assert ImagesRead(pdf, fault) == |AllImages(pdf[..p])| + j;
      ImageFaultIsFlatPrefix(pdf, ocr, p, j);
    }
  }

  lemma ListFaultIsFlatPrefix(pdf: Pdf, ocr: Image -> string, p: nat)
    requires p < |pdf|
    ensures |AllImages(pdf[..p])| <= |AllImages(pdf)|
    ensures OcrText(pdf[..p], ocr) == ImagesOcr(AllImages(pdf)[..|AllImages(pdf[..p])|], ocr)
  {
    AllImagesPrefix(pdf, p);
    var before := AllImages(pdf[..p]);
    assert AllImages(pdf)[..|before|] == before;
    OcrTextIsFlat(pdf[..p], ocr);
  }

  lemma ImageFaultIsFlatPrefix(pdf: Pdf, ocr: Image -> string, p: nat, j: nat)
    requires p < |pdf| && j < |pdf[p].images|
    ensures |AllImages(pdf[..p])| + j <= |AllImages(pdf)|
    ensures OcrText(pdf[..p], ocr) + ImagesOcr(pdf[p].images[..j], ocr)
         == ImagesOcr(AllImages(pdf)[..|AllImages(pdf[..p])| + j], ocr)
  {
    AllImagesPrefix(pdf, p);
    var before, images := AllImages(pdf[..p]), pdf[p].images;
    var upTo := AllImages(pdf[..p + 1]);
    assert upTo == before + images;
    assert AllImages(pdf)[..|before| + j] == upTo[..|before| + j];
    assert upTo[..|before| + j] == before + images[..j];
    OcrTextIsFlat(pdf[..p], ocr);
    ImagesOcrAppend(before, images[..j], ocr);
  }

  /** The recognised text is empty exactly when every image yields "". */
  lemma {:induction false} ImagesOcrEmptyIff(images: seq<Image>, ocr: Image -> string)
    ensures ImagesOcr(images, ocr) == "" <==> forall i :: 0 <= i < |images| ==> ocr(images[i]) == ""
  {
    if |images| > 0 {
      var init := images[..|images| - 1];
      ImagesOcrEmptyIff(init, ocr);
      assert forall i :: 0 <= i < |init| ==> init[i] == images[i];
    }
  }
}
