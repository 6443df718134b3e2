/**
 * Turning the backend's search hits into the records the command line
 * prints: the file name and path of the hit's document and the first 50
 * characters of its first highlight fragment of the text field.
 */
module Formatting {
  import opened Wrappers
  import opened Indexing

  /** The longest snippet shown for a hit. */
  const SnippetLength := 50

  /** A search hit: the stored document and, when the backend sent one,
      the `highlight` object, which maps field names to fragment lists. */
  datatype Hit = Hit(source: Document, highlight: Option<map<string, seq<string>>>)

  /** One printed result. */
  datatype FormattedHit = FormattedHit(filename: string, path: string, highlighted: string)

  /** The hit has no highlight fragments for the text field. */
  predicate NoTextHighlight(hit: Hit)
  {
    hit.highlight.None? || "text" !in hit.highlight.value
  }

  /** Indexing the first fragment does not raise: a highlight list for the
      text field, when present, is not empty. */
  predicate HasFirstFragment(hit: Hit)
  {
    NoTextHighlight(hit) || |hit.highlight.value["text"]| > 0
  }

  /** Every hit can be formatted without raising. */
  predicate Formattable(hits: seq<Hit>)
  {
    forall i :: 0 <= i < |hits| ==> HasFirstFragment(hits[i])
  }

  /** `hit.get("highlight", {}).get("text", [""])[0]`. */
  function FirstFragment(hit: Hit): (fragment: string)
    requires HasFirstFragment(hit)
    ensures NoTextHighlight(hit) ==> fragment == ""
    ensures !NoTextHighlight(hit) ==> fragment == hit.highlight.value["text"][0]
  {
    var fields := if hit.highlight.Some? then hit.highlight.value else map[];
    var fragments := if "text" in fields then fields["text"] else [""];
    fragments[0]
  }

  /** `s[:50]`. */
  function Snippet(s: string): string
  {
    if |s| <= SnippetLength then s else s[..SnippetLength]
  }

  /** The record printed for one hit. */
  function FormatHit(hit: Hit): (r: FormattedHit)
    requires HasFirstFragment(hit)
    ensures r.filename == hit.source.filename && r.path == hit.source.path
    ensures r.highlighted <= FirstFragment(hit) && |r.highlighted| <= SnippetLength
    ensures |FirstFragment(hit)| <= SnippetLength ==> r.highlighted == FirstFragment(hit)
    ensures |FirstFragment(hit)| > SnippetLength ==> |r.highlighted| == SnippetLength
    ensures NoTextHighlight(hit) ==> r.highlighted == ""
  {
    FormattedHit(hit.source.filename, hit.source.path, Snippet(FirstFragment(hit)))
  }

  /** `results` lists the formatted hits one for one, in the hits' order. */
  predicate FormatsAs(hits: seq<Hit>, results: seq<FormattedHit>)
  {
    |results| == |hits| &&
    Formattable(hits) && forall i :: 0 <= i < |hits| ==> results[i] == FormatHit(hits[i])
  }

  /** The formatting loop of the search action. */
  method FormatHits(hits: seq<Hit>) returns (results: seq<FormattedHit>)
    requires Formattable(hits)
    ensures |results| == |hits|
    ensures forall i :: 0 <= i < |hits| ==> results[i] == FormatHit(hits[i])
  {
    results := [];
    for i := 0 to |hits|
      invariant |results| == i
      invariant forall k :: 0 <= k < i ==> results[k] == FormatHit(hits[k])
    {
      var hit := hits[i];
      var highlightedPart := Snippet(FirstFragment(hit));
      var result := FormattedHit(hit.source.filename, hit.source.path, highlightedPart);
      results := results + [result];
    }
  }
}
