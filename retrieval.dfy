/** The snippet taken from the knowledge base for the search term. */
module Retrieval {
  import opened Text

  /** What the page lookup can end in. The lookup itself is an external
      service; only its outcome is modelled. */
  datatype Lookup =
    | Found(summary: string)   // the page exists; its summary
    | Missing                  // no page has this title
    | Failed(message: string)  // the lookup raised; the text of the exception

  const SnippetLength: nat := 500
  const NotFoundText: string := "No relevant verified information found."
  const ErrorPrefix: string := "Error retrieving context: "

  /** The snippet: at most 500 characters of an existing page's summary, the
      not-found sentence, or the error text after a fixed prefix. */
  function Snippet(outcome: Lookup): (s: string)
    ensures outcome.Found? ==> s <= outcome.summary
    ensures outcome.Found? ==> |s| == if |outcome.summary| < SnippetLength then |outcome.summary| else SnippetLength
    ensures outcome.Missing? ==> s == NotFoundText
    ensures outcome.Failed? ==> ErrorPrefix <= s && s[|ErrorPrefix|..] == outcome.message
  {
    match outcome
    case Found(summary) => Take(summary, SnippetLength)
    case Missing => NotFoundText
    case Failed(message) => ErrorPrefix + message
  }

  /** A summary longer than the limit is cut to exactly 500 characters. */
  lemma LongSummaryCut(summary: string)
    requires |summary| > SnippetLength
    ensures |Snippet(Found(summary))| == 500
  {
  }

  /** A summary within the limit is kept whole. */
  lemma ShortSummaryKept(summary: string)
    requires |summary| <= SnippetLength
    ensures Snippet(Found(summary)) == summary
  {
  }
}
