/**
 * The document record that an upload submits to the search backend, and
 * that search hits carry back as their `_source`.
 */
module Indexing {
  import opened Strings

  /** The indexed fields: the extracted text, the file name and the path. */
  datatype Document = Document(text: string, filename: string, path: string)

  /** The body of `index_text_to_elasticsearch`'s request: the text as
      extracted, the path as given, and as file name the last component
      of the path. */
  function DocumentRecord(text: string, path: string): (r: Document)
    ensures r.text == text && r.path == path
    ensures '/' !in r.filename
    ensures |r.filename| <= |path| && path[|path| - |r.filename|..] == r.filename
    ensures |r.filename| < |path| ==> path[|path| - |r.filename| - 1] == '/'
  {
    Document(text, Basename(path), path)
  }
}
