# Fake news detection with explanation: the decision logic

The tool reads one news article, asks a text classifier whether it is fake,
looks up a snippet in Wikipedia for a keyword taken from the article's
opening, and asks a text generator to explain the label using that snippet.
It keeps the generated explanation only if it passes three checks.
Otherwise it uses a fixed explanation template.

This project models the string logic between those library calls, all of it
in `app.py`. Each piece is a pure Dafny function:

- `Labels` maps the classifier's raw label to FAKE or REAL.
- `Keywords` picks the search term. It lower-cases the first 100 characters,
  splits them into word tokens and drops ten stop words. It then takes the
  first of the longest remaining tokens, or "solar system" when none is left.
- `Retrieval` turns the outcome of the page lookup into the snippet. The
  lookup can find a page, find no page, or raise.
- `Explanation` builds the prompt and cleans the generated text. It deletes
  every copy of the prompt, strips the result and cuts it to 300 characters.
  It then checks three things: at least 20 words, no copy of the prompt in
  any case, and one of four cue words. It falls back to the template when a
  check fails or the generator raises.
- `Pipeline` chains these steps for one article. The classifier, the
  knowledge base and the generator are function parameters.
- `Text` gives the Python string operations these steps use: slicing,
  `strip`, `split`, `re.findall(r'\b\w+\b', ...)`, `replace(p, "")`, `lower`
  and the `in` substring test. `re.findall` and `split` are the same notion:
  the maximal runs of characters in a class (`Runs`).

Details of the code that the model keeps:

- The classifier's raw labels are `"LABEL_1"` and `"LABEL_0"` (app.py:43).
  Any raw label other than `"LABEL_1"` becomes REAL.
- Only the generated candidate is cut to 300 characters. The fallback
  template is not cut. It has 378 characters when the article has at least
  100 characters and the snippet at least 200
  (`Explanation.FallbackCanExceedCandidateLength`).
- The fallback ends with a `.` after the snippet.
- `max(..., key=len)` replaces its current best only with a strictly longer
  token, so it keeps the earliest of equally long tokens
  (`Keywords.FirstLongest`).

## Model

| member | source | states |
|---|---|---|
| `Labels.MapLabel` | app.py:43-45 | the result is FAKE or REAL, and it is FAKE exactly when the raw label is "LABEL_1" |
| `Keywords.Tokens` | app.py:53 | every token found by `\b\w+\b` is non-empty and made only of word characters |
| `Keywords.NonStop` | app.py:52-54 | the kept tokens are the input's tokens that are not stop words: every kept token is from the input and not a stop word, and every non-stop token of the input is kept |
| `Keywords.NonStopAppend` | app.py:54 | the filter of a concatenation is the concatenation of the filters, so the kept tokens stay in article order with their repetitions |
| `Keywords.NonStopSingle` | app.py:52-54 | a single token is kept exactly when it is not one of the ten stop words |
| `Keywords.Candidates` | app.py:52-54 | every candidate is a non-empty token of the lower-cased first 100 characters and not a stop word |
| `Keywords.FirstLongest` | app.py:54 | `max(..., key=len)` picks an index whose token is at least as long as every token, and every earlier token is strictly shorter (ties go to the first) |
| `Keywords.FirstLongestUnique` | app.py:54 | those two properties single out one index, so the tie-break fully determines the choice |
| `Keywords.SearchTerm` | app.py:52-54 | with no candidate token the term is "solar system"; otherwise it is a candidate, as long as every candidate, with every earlier candidate strictly shorter |
| `Keywords.SearchTermDefaultIff` | app.py:54 | the term is "solar system" exactly when the lower-cased opening has no non-stop token |
| `Keywords.SearchTermIsToken` | app.py:52-54 | any other term is a token of the lower-cased first 100 characters, not a stop word, non-empty, all word characters, with no upper-case letter |
| `Keywords.TokensWellFormed` | app.py:53 | every token of the lower-cased opening is non-empty, all word characters and free of upper-case letters |
| `Keywords.SearchTermReadsPrefixOnly` | app.py:53-54 | two articles with the same first 100 characters get the same search term |
| `Retrieval.Snippet` | app.py:55-64 | a found page gives a prefix of its summary of length min(500, length of summary); a missing page gives "No relevant verified information found."; a failed lookup gives "Error retrieving context: " followed by the exception's message |
| `Retrieval.LongSummaryCut` | app.py:57 | a summary longer than 500 characters gives a snippet of exactly 500 |
| `Retrieval.ShortSummaryKept` | app.py:57 | a summary of at most 500 characters is the snippet unchanged |
| `Explanation.Prompt` | app.py:68 | the prompt is exactly the fixed opening, the article's first 100 characters, "' is ", the label, " in 50-100 words.", and " Use this fact: " with the snippet's first 200 characters and a closing `.`; it has no whitespace at either end |
| `Explanation.Fallback` | app.py:73 | the template is exactly "The claim '", the article's first 100 characters, "' is flagged as ", the label, then " because it contradicts Wikipedia's evidence: ", the snippet's first 200 characters and a closing `.`; so it has 74 fixed characters plus those parts |
| `Explanation.Clean` | app.py:70-71 | the candidate is the prefix of length min(300, length) of the generated text stripped, with the prompt deleted, and stripped again; it has no leading whitespace |
| `Explanation.HasCue` | app.py:72 | the cue test of `any(...)`: a text shorter than the shortest cue word ("reason", 6 characters) never passes it |
| `Explanation.HasCueIgnoresCase` | app.py:72 | the cue test gives the same answer on a text and on its lower-cased form |
| `Explanation.Accepted` | app.py:72 | a candidate that passes the three checks has at least 39 characters (20 words and 19 separators) and contains a cue word |
| `Explanation.Explain` | app.py:69-75 | a raising generator gives the fallback; a generated text gives its cleaned candidate when it passes the word-count, prompt and cue checks, and the fallback otherwise; so every explanation is the fallback or a text of at most 300 characters with at least 20 words, a cue word and no copy of the prompt in any case |
| `Explanation.EchoFallsBack` | app.py:70-72 | a generator that returns just the prompt yields the fallback |
| `Explanation.CleanWithoutEcho` | app.py:70-71 | when the generated text contains no copy of the prompt, the candidate is that text stripped and cut to 300 characters |
| `Explanation.FallbackCanExceedCandidateLength` | app.py:71-75 | with a full-length article opening and snippet, the fallback has 378 characters for FAKE and more than 300 for REAL |
| `Explanation.ExplainBound` | app.py:69-75 | no explanation is longer than 374 characters plus the label |
| `Pipeline.Run` | app.py:40-75 | nothing runs for an empty article; otherwise the label is FAKE or REAL, FAKE exactly when the classifier says "LABEL_1" on the first 512 characters; the snippet comes from looking up the search term; the explanation is what `Explain` makes of the generator's outcome on the prompt built from the article, label and snippet, so it is the fallback or an accepted candidate |
| `Pipeline.RaisingGeneratorFallsBack` | app.py:74-75 | when the generator raises, the run's explanation is the fallback |
| `Text.IsSpace` | app.py:70-72 | the whitespace of `strip()` and `split()` is Python's `isspace` set, and no whitespace character is a word character |
| `Text.Contains` | app.py:72 | Python's `in`: the empty text occurs in every text, and a text longer than another never occurs in it |
| `Text.Take` | app.py:53 | `s[:n]` is a prefix of `s` of length min(n, length of s) |
| `Text.Lower` | app.py:53 | lower-casing keeps the length, maps each character and leaves no upper-case letter |
| `Text.LowerIdempotent` | app.py:72 | lower-casing changes nothing exactly when there is no upper-case letter, and lower-casing twice is lower-casing once |
| `Text.Strip` | app.py:70-71 | the result has no whitespace at either end and is a piece of the input surrounded only by whitespace |
| `Text.StripTrimmed` | app.py:70-71 | a text with no whitespace at either end is unchanged by `strip()` |
| `Text.StripIdempotent` | app.py:70-71 | stripping twice is stripping once |
| `Text.StripKeepsAbsence` | app.py:70-71 | stripping a text that lacks a pattern cannot create an occurrence of it |
| `Text.Runs` | app.py:53 | every run is non-empty and made of characters of the input that are in the class |
| `Text.RunsSplit` | app.py:53 | a character outside the class splits the text into two parts whose runs are found independently |
| `Text.RunsWhole` | app.py:53 | a non-empty text made only of class characters is a single run |
| `Text.WordCount` | app.py:72 | `len(s.split())` words need at least one separator between each two, so `n` words take at least `2n - 1` characters |
| `Text.RemoveAll` | app.py:71 | `s.replace(p, "")` is never longer than `s` (its deletions are characterised by `Text.RemoveAllFirst`) |
| `Text.RemoveAllFirst` | app.py:71 | text before the first occurrence of the pattern is kept, that occurrence is deleted, and deletion goes on in the rest: every occurrence found left to right is removed, not only the first |
| `Text.RemoveAllAbsent` | app.py:71 | a text without the pattern is unchanged by the deletion |
| `Text.RemoveAllSelf` | app.py:71 | deleting the pattern from itself leaves nothing |
| `Text.RemoveAllCanLeaveMatch` | app.py:71-72 | one deletion pass can leave a copy of the pattern ("aabb" without "ab" is "ab"), which is why the prompt is checked again |

## Left out

- The Streamlit interface (app.py:20-40, 46, 49, 58-62, 65, 76-85) is presentation only: widgets, buttons, messages and the download button. The downloaded file holds the explanation of `Pipeline.Report` as it is.
- Fetching an article from a URL and extracting its paragraphs (app.py:29-38) is network I/O through an HTML parser.
- Loading and calling the classifier and the generator (app.py:15, 18, 42, 70) are foreign models. They are the parameters `classify` and `generate`. The generator samples at random, and the model reads that as the caller's choice of `generate`.
- The confidence score and its display (app.py:44, 46) are floating point, for display only.
- The Wikipedia client (app.py:12, 55-57) is an external service. Only the outcome of a lookup is modelled (`Retrieval.Lookup`).
- A classifier that raises (app.py:42-43) is not caught, and the run aborts. The parameter `classify` is a total function, so the model cannot express that failure.
- Setting environment variables (app.py:2-3) is process configuration.
- Text.IsWordChar: models `\w` as ASCII letters, digits and `_`. Python's `\w` on `str` also matches other Unicode letters and digits.
- Text.Lower: models `lower()` on ASCII letters only. Python lower-cases every Unicode letter, and for a few characters the result is longer than the input.
