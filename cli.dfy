/**
 * The command line: `upload <pdf_path>` and `search <query words...>`.
 *
 * Everything the program asks of the outside world is an oracle in a
 * `World`: whether a path exists, what the backend answers to the index
 * existence check, whether creating the index succeeds, the document at a
 * path (with where its two extraction strategies fail, if they do) and the
 * hits a query returns (an empty list also stands for a failed search,
 * which the program turns into one). What the program does to the world
 * and to its output is recorded, in order, as a sequence of effects.
 */
module Cli {
  import opened Wrappers
  import opened Strings
  import opened Extraction
  import opened Indexing
  import opened Formatting

  /** What `es.indices.get` does: returns, raises `NotFoundError`, or
      raises some other exception. */
  datatype IndexProbe = IndexFound | IndexNotFound | ProbeFailed

  datatype World = World(
    fileExists: string -> bool,
    probe: IndexProbe,
    createSucceeds: bool,
    document: string -> Pdf,
    ocr: Image -> string,
    directFault: Option<nat>,
    ocrFault: Option<OcrFault>,
    search: string -> seq<Hit>)

  /** The messages the program prints. */
  datatype Message =
    | Usage
    | MissingPdfPath
    | FileNotFound(path: string)
    | Uploaded
    | MissingQuery
    | NoResults
    | Results(results: seq<FormattedHit>)
    | InvalidRequest

  /** What the program does, in the order it does it. */
  datatype Effect =
    | Print(message: Message)
    | CheckIndex
    | CreateIndex
    | ExtractText(path: string)
    | IndexDocument(doc: Document)
    | Search(query: string)

  /** How the process ends: by running off the end of the script, by
      `sys.exit(code)`, or by an exception nothing catches. */
  datatype Termination = Finished | SysExit(code: int) | Uncaught

  /** The process's exit status; an uncaught exception exits with 1. */
  function ExitCode(t: Termination): int
  {
    match t
    case Finished => 0
    case SysExit(code) => code
    case Uncaught => 1
  }

  /** The argument vector asks for an upload of `argv[2]`. */
  predicate IsUpload(argv: seq<string>)
  {
    |argv| >= 3 && argv[1] == "upload"
  }

  /** The argument vector asks for a search for `argv[2..]`. */
  predicate IsSearch(argv: seq<string>)
  {
    |argv| >= 3 && argv[1] == "search"
  }

  /** The search query: `" ".join(argv[2:])`. */
  function Query(argv: seq<string>): (query: string)
    requires |argv| >= 2
    ensures |argv| == 2 ==> query == ""
    ensures |argv| >= 3 ==> argv[2] <= query
  {
    Join(argv[2..])
  }

  /** The effects of a successful upload of `path`, once the index is there. */
  function UploadEffects(path: string, w: World): seq<Effect>
  {
    [ExtractText(path),
     IndexDocument(DocumentRecord(ExtractedText(w.document(path), w.ocr, w.directFault, w.ocrFault), path)),
     Print(Uploaded)]
  }

  /** The upload branch, from the existence check of the path on. */
  method Upload(pdfPath: string, w: World) returns (term: Termination, effects: seq<Effect>)
    ensures !w.fileExists(pdfPath) ==> term == SysExit(1) && effects == [Print(FileNotFound(pdfPath))]
    ensures w.fileExists(pdfPath) && w.probe == ProbeFailed ==> term == Uncaught && effects == [CheckIndex]
    ensures w.fileExists(pdfPath) && w.probe == IndexNotFound && !w.createSucceeds ==>
      term == SysExit(1) && effects == [CheckIndex, CreateIndex]
    ensures w.fileExists(pdfPath) && w.probe == IndexNotFound && w.createSucceeds ==>
      term == Finished && effects == [CheckIndex, CreateIndex] + UploadEffects(pdfPath, w)
    ensures w.fileExists(pdfPath) && w.probe == IndexFound ==>
      term == Finished && effects == [CheckIndex] + UploadEffects(pdfPath, w)
  {
    if !w.fileExists(pdfPath) {
      effects := [Print(FileNotFound(pdfPath))];
      term := SysExit(1);
      return;
    }

    if w.probe == ProbeFailed {
      effects := [CheckIndex];
      term := Uncaught;
      return;
    } else if w.probe == IndexNotFound {
      effects := [CheckIndex, CreateIndex];
      if !w.createSucceeds {
        term := SysExit(1);
        return;
      }
    } else {
      effects := [CheckIndex];
    }

    var extractedText, _ := ExtractTextFromPdf(w.document(pdfPath), w.ocr, w.directFault, w.ocrFault);
    var record := DocumentRecord(extractedText, pdfPath);
    assert [ExtractText(pdfPath), IndexDocument(record), Print(Uploaded)] == UploadEffects(pdfPath, w);
    effects := effects + [ExtractText(pdfPath), IndexDocument(record), Print(Uploaded)];
    term := Finished;
  }

  /** The search branch, once the query is assembled. A hit whose fragment
      list is empty makes the formatting loop raise. */
  method SearchFor(query: string, w: World) returns (term: Termination, effects: seq<Effect>)
    ensures w.search(query) == [] ==> term == SysExit(1) && effects == [Search(query), Print(NoResults)]
    ensures w.search(query) != [] && !Formattable(w.search(query)) ==>
      term == Uncaught && effects == [Search(query)]
    ensures w.search(query) != [] && Formattable(w.search(query)) ==>
      term == Finished && |effects| == 2 && effects[0] == Search(query) &&
      effects[1].Print? && effects[1].message.Results? &&
      FormatsAs(w.search(query), effects[1].message.results)
  {
    effects := [Search(query)];
    var searchResults := w.search(query);

    if searchResults == [] {
      effects := effects + [Print(NoResults)];
      term := SysExit(1);
      return;
    }

    if !Formattable(searchResults) {
      // `[0]` on an empty fragment list raises IndexError.
      term := Uncaught;
      return;
    }
    var results := FormatHits(searchResults);
    effects := effects + [Print(Results(results))];
    term := Finished;
  }

  /** The script's `__main__` block, one guarded step after another. */
  method Dispatch(argv: seq<string>, w: World) returns (term: Termination, effects: seq<Effect>)
    // Argument errors.
    ensures |argv| < 2 ==> term == SysExit(1) && effects == [Print(Usage)]
    ensures |argv| == 2 && argv[1] == "upload" ==> term == SysExit(1) && effects == [Print(MissingPdfPath)]
    ensures |argv| == 2 && argv[1] == "search" ==> term == SysExit(1) && effects == [Print(MissingQuery)]
    ensures |argv| >= 2 && argv[1] != "upload" && argv[1] != "search" ==>
      term == Finished && effects == [Print(InvalidRequest)]
    // Upload: the path is checked before the backend is touched, the index
    // is created only when the check reports it missing, and nothing is
    // extracted unless the index is known to exist.
    ensures IsUpload(argv) && !w.fileExists(argv[2]) ==>
      term == SysExit(1) && effects == [Print(FileNotFound(argv[2]))]
    ensures IsUpload(argv) && w.fileExists(argv[2]) && w.probe == ProbeFailed ==>
      term == Uncaught && effects == [CheckIndex]
    ensures IsUpload(argv) && w.fileExists(argv[2]) && w.probe == IndexNotFound && !w.createSucceeds ==>
      term == SysExit(1) && effects == [CheckIndex, CreateIndex]
    ensures IsUpload(argv) && w.fileExists(argv[2]) && w.probe == IndexNotFound && w.createSucceeds ==>
      term == Finished && effects == [CheckIndex, CreateIndex] + UploadEffects(argv[2], w)
    ensures IsUpload(argv) && w.fileExists(argv[2]) && w.probe == IndexFound ==>
      term == Finished && effects == [CheckIndex] + UploadEffects(argv[2], w)
    // Search: the query is the remaining arguments joined by single spaces.
    ensures IsSearch(argv) && w.search(Query(argv)) == [] ==>
      term == SysExit(1) && effects == [Search(Query(argv)), Print(NoResults)]
    ensures IsSearch(argv) && w.search(Query(argv)) != [] && !Formattable(w.search(Query(argv))) ==>
      term == Uncaught && effects == [Search(Query(argv))]
    ensures IsSearch(argv) && w.search(Query(argv)) != [] && Formattable(w.search(Query(argv))) ==>
      term == Finished && |effects| == 2 && effects[0] == Search(Query(argv)) &&
      effects[1].Print? && effects[1].message.Results? &&
      FormatsAs(w.search(Query(argv)), effects[1].message.results)
    // Across all runs.
    ensures CreateIndex in effects ==> IsUpload(argv) && w.probe == IndexNotFound
    ensures forall d :: IndexDocument(d) in effects ==>
      effects[0] == CheckIndex && effects[|effects| - 1] == Print(Uploaded) && ExitCode(term) == 0
    ensures ExitCode(term) == 0 <==> term == Finished
  {
    if |argv| < 2 {
      effects := [Print(Usage)];
      term := SysExit(1);
      return;
    }

    var action := argv[1];

    if action == "upload" {
      if |argv| < 3 {
        effects := [Print(MissingPdfPath)];
        term := SysExit(1);
        return;
      }
      term, effects := Upload(argv[2], w);
    } else if action == "search" {
      if |argv| < 3 {
        effects := [Print(MissingQuery)];
        term := SysExit(1);
        return;
      }
      term, effects := SearchFor(Query(argv), w);
    } else {
      effects := [Print(InvalidRequest)];
      term := Finished;
    }
  }
}
