/** One run of the tool on one article: classify, pick a search term, fetch a
    snippet, explain. The classifier, the knowledge base and the generator are
    parameters. */
module Pipeline {
  import opened Text
  import opened Labels
  import opened Keywords
  import opened Retrieval
  import opened Explanation

  /** Only this many characters of the article are given to the classifier. */
  const ClassifierInput: nat := 512

  datatype Option<T> = None | Some(value: T)

  /** What a run shows: the label, the snippet and the explanation. */
  datatype Report = Report(verdict: string, snippet: string, explanation: string)

  /** The run started by "Classify and Explain"; nothing happens for an empty
      article. `classify` gives the raw label for a text, `wiki` the outcome of
      looking up a title, `generate` the generator's outcome for a prompt. */
  function Run(article: string, classify: string -> string, wiki: string -> Lookup,
               generate: string -> Generation): (r: Option<Report>)
    ensures r.None? <==> article == []
    ensures r.Some? ==>
      && (r.value.verdict == Fake || r.value.verdict == Real)
      && (r.value.verdict == Fake <==> classify(Take(article, ClassifierInput)) == FakeTag)
    ensures r.Some? ==> r.value.snippet == Snippet(wiki(SearchTerm(article)))
    ensures r.Some? ==>
      r.value.explanation
        == Explain(article, r.value.verdict, r.value.snippet,
                   generate(Prompt(article, r.value.verdict, r.value.snippet)))
    ensures r.Some? ==>
      var e := r.value.explanation;
      var prompt := Prompt(article, r.value.verdict, r.value.snippet);
      || e == Fallback(article, r.value.verdict, r.value.snippet)
      || (|e| <= CandidateLength && WordCount(e) >= MinWords && HasCue(e) && !Contains(Lower(e), Lower(prompt)))
  {
    if article == [] then None
    else
      var verdict := MapLabel(classify(Take(article, ClassifierInput)));
      var snippet := Snippet(wiki(SearchTerm(article)));
      var explanation := Explain(article, verdict, snippet, generate(Prompt(article, verdict, snippet)));
      Some(Report(verdict, snippet, explanation))
  }

  /** The explanation is the fallback whenever the generator raises. */
  lemma RaisingGeneratorFallsBack(article: string, classify: string -> string, wiki: string -> Lookup)
    requires article != []
    ensures var r := Run(article, classify, wiki, _ => Raised);
      r.Some? && r.value.explanation == Fallback(article, r.value.verdict, r.value.snippet)
  {
  }
}
