/** The explanation: a generated text that passes three checks, or else a
    fixed template built from the article, the label and the snippet. */
module Explanation {
  import opened Text

  /** What the text generator can end in. The generator is a sampling model
      outside the program; only its result is modelled. */
  datatype Generation =
    | Generated(text: string)  // generated_text of the first returned sequence
    | Raised                   // the call, or reading its result, raised

  const ArticleLength: nat := 100
  const SnippetInPrompt: nat := 200
  const CandidateLength: nat := 300
  const MinWords: nat := 20
  const Cues: seq<string> := ["contradict", "because", "reason", "evidence"]

  /** The prompt given to the generator. */
  function Prompt(article: string, verdict: string, snippet: string): (p: string)
    ensures var head := "Explain why the claim '" + Take(article, ArticleLength) + "' is ";
      && head + verdict <= p
      && |p| == |head| + |verdict| + |" in 50-100 words."| + |PromptTail(snippet)|
      && p[|p| - |PromptTail(snippet)|..] == PromptTail(snippet)
      && p[|head| + |verdict|..|p| - |PromptTail(snippet)|] == " in 50-100 words."
    ensures p != [] && !IsSpace(p[0]) && !IsSpace(p[|p| - 1])
  {
    "Explain why the claim '" + Take(article, ArticleLength) + "' is " + verdict
      + " in 50-100 words. Use this fact: " + Take(snippet, SnippetInPrompt) + "."
  }

  /** The end of the prompt: the snippet's first 200 characters as the fact. */
  function PromptTail(snippet: string): string {
    " Use this fact: " + Take(snippet, SnippetInPrompt) + "."
  }

  /** The end of the fallback: the snippet's first 200 characters as the evidence. */
  function FallbackTail(snippet: string): string {
    " because it contradicts Wikipedia's evidence: " + Take(snippet, SnippetInPrompt) + "."
  }

  /** The deterministic explanation used whenever the generated one is not:
      the claim and label at the front, the evidence and a `.` at the end,
      nothing between them. */
  function Fallback(article: string, verdict: string, snippet: string): (f: string)
    ensures var head := "The claim '" + Take(article, ArticleLength) + "' is flagged as " + verdict;
      && head <= f
      && |f| == |head| + |FallbackTail(snippet)|
      && f[|head|..] == FallbackTail(snippet)
    ensures f[|f| - |Take(snippet, SnippetInPrompt)| - 1..] == Take(snippet, SnippetInPrompt) + "."
    ensures |f| == 74 + |Take(article, ArticleLength)| + |verdict| + |Take(snippet, SnippetInPrompt)|
  {
    "The claim '" + Take(article, ArticleLength) + "' is flagged as " + verdict
      + " because it contradicts Wikipedia's evidence: " + Take(snippet, SnippetInPrompt) + "."
  }

  /** The generated text with every copy of the prompt deleted, stripped and
      cut to 300 characters. */
  function Clean(text: string, prompt: string): (c: string)
    requires prompt != []
    ensures var t := Strip(RemoveAll(Strip(text), prompt));
      && c <= t
      && |c| == if |t| < CandidateLength then |t| else CandidateLength
    ensures |c| <= CandidateLength
    ensures c == [] || !IsSpace(c[0])
  {
    Take(Strip(RemoveAll(Strip(text), prompt)), CandidateLength)
  }

  /** At least one cue word occurs in the lower-cased text. A text shorter
      than the shortest cue has none. */
  predicate HasCue(c: string)
    ensures HasCue(c) ==> |c| >= 6
  {
    exists k | 0 <= k < |Cues| :: Contains(Lower(c), Cues[k])
  }

  /** Lower-casing the text first does not change the cue test. */
  lemma HasCueIgnoresCase(c: string)
    ensures HasCue(Lower(c)) == HasCue(c)
  {
    LowerIdempotent(c);
  }

  /** The three checks a cleaned text must pass to be used. An accepted text
      holds 20 words with separators between them, and a cue word. */
  predicate Accepted(c: string, prompt: string)
    ensures Accepted(c, prompt) ==> |c| >= 2 * MinWords - 1 && HasCue(c)
  {
    && WordCount(c) >= MinWords
    && !Contains(Lower(c), Lower(prompt))
    && HasCue(c)
  }

  /** The explanation shown and offered for download. */
  function Explain(article: string, verdict: string, snippet: string, gen: Generation): (e: string)
    ensures gen.Raised? ==> e == Fallback(article, verdict, snippet)
    ensures gen.Generated? ==>
      var c := Clean(gen.text, Prompt(article, verdict, snippet));
      e == if Accepted(c, Prompt(article, verdict, snippet)) then c else Fallback(article, verdict, snippet)
    ensures e == Fallback(article, verdict, snippet)
         || (&& |e| <= CandidateLength
             && WordCount(e) >= MinWords
             && HasCue(e)
             && !Contains(Lower(e), Lower(Prompt(article, verdict, snippet))))
  {
    var prompt := Prompt(article, verdict, snippet);
    match gen
    case Raised => Fallback(article, verdict, snippet)
    case Generated(text) =>
      var c := Clean(text, prompt);
      if Accepted(c, prompt) then c else Fallback(article, verdict, snippet)
  }

  /** A generator that only echoes the prompt yields the fallback: deleting
      the prompt leaves nothing, and nothing has fewer than 20 words. */
  lemma EchoFallsBack(article: string, verdict: string, snippet: string)
    ensures var p := Prompt(article, verdict, snippet);
      Explain(article, verdict, snippet, Generated(p)) == Fallback(article, verdict, snippet)
  {
    var p := Prompt(article, verdict, snippet);
    StripTrimmed(p);
    RemoveAllSelf(p);
    assert Clean(p, p) == [];
    assert WordCount([]) == 0;
  }

  /** When the generated text never contains the prompt, the candidate is that
      text stripped and cut to 300 characters. */
  lemma CleanWithoutEcho(text: string, prompt: string)
    requires prompt != []
    requires !Contains(text, prompt)
    ensures Clean(text, prompt) == Take(Strip(text), CandidateLength)
  {
    var t := Strip(text);
    StripKeepsAbsence(text, prompt);
    RemoveAllAbsent(t, prompt);
    StripIdempotent(text);
  }

  /** The fallback is not cut: a full-length article opening and snippet make
      it longer than the 300 characters a generated explanation may have. */
  lemma FallbackCanExceedCandidateLength(article: string, snippet: string)
    requires |article| >= ArticleLength && |snippet| >= SnippetInPrompt
    ensures |Fallback(article, "FAKE", snippet)| == 378
    ensures |Fallback(article, "REAL", snippet)| > CandidateLength
  {
  }

  /** Upper bound on every explanation for a given label. */
  lemma ExplainBound(article: string, verdict: string, snippet: string, gen: Generation)
    ensures |Explain(article, verdict, snippet, gen)| <= 374 + |verdict|
  {
  }
}
