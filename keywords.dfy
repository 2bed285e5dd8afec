/** Choice of the search term sent to the knowledge base: the longest word of
    the article's opening that is not a stop word. */
module Keywords {
  import opened Text

  /** Only this many characters of the article are looked at. */
  const PrefixLength: nat := 100

  const StopWords: set<string> := {"the", "is", "are", "in", "of", "to", "and", "a", "an", "there"}

  /** The term used when the opening has no usable word. */
  const DefaultTerm: string := "solar system"

  /** `re.findall(r'\b\w+\b', s)`: the maximal runs of word characters. */
  function Tokens(s: string): (r: seq<string>)
    ensures forall k :: 0 <= k < |r| ==> r[k] != [] && forall j :: 0 <= j < |r[k]| ==> IsWordChar(r[k][j])
  {
    Runs(s, IsWordChar)
  }

  /** `[w for w in ws if w not in stop_words]`. */
  function NonStop(ws: seq<string>): (r: seq<string>)
    ensures |r| <= |ws|
    ensures forall k :: 0 <= k < |r| ==> r[k] in ws && r[k] !in StopWords
    ensures forall k :: 0 <= k < |ws| && ws[k] !in StopWords ==> ws[k] in r
  {
    if ws == [] then []
    else (if ws[0] in StopWords then [] else [ws[0]]) + NonStop(ws[1..])
  }

  /** The filter works piece by piece, so it keeps the order and the
      repetitions of the tokens it keeps. */
  lemma {:induction false} NonStopAppend(a: seq<string>, b: seq<string>)
    ensures NonStop(a + b) == NonStop(a) + NonStop(b)
    decreases |a|
  {
    if a == [] {
      assert a + b == b;
    } else {
      assert (a + b)[0] == a[0];
      assert (a + b)[1..] == a[1..] + b;
      NonStopAppend(a[1..], b);
    }
  }

  /** The filter keeps exactly the one-token lists that are not stop words. */
  lemma NonStopSingle(w: string)
    ensures NonStop([w]) == if w in StopWords then [] else [w]
  {
    assert [w][1..] == [];
  }

  /** Index that `max(ws, key=len)` picks: the first of the longest words.
      Python's `max` keeps its current best unless a later item is strictly
      greater, so ties go to the earliest. */
  function FirstLongest(ws: seq<string>): (i: nat)
    requires ws != []
    ensures i < |ws|
    ensures forall j :: 0 <= j < |ws| ==> |ws[j]| <= |ws[i]|
    ensures forall j :: 0 <= j < i ==> |ws[j]| < |ws[i]|
  {
    if |ws| == 1 then 0
    else
      var k := FirstLongest(ws[..|ws| - 1]);
      if |ws[|ws| - 1]| > |ws[k]| then |ws| - 1 else k
  }

  /** The words of the article's lower-cased opening that are not stop words. */
  function Candidates(article: string): (c: seq<string>)
    ensures forall k :: 0 <= k < |c| ==>
      && c[k] in Tokens(Lower(Take(article, PrefixLength)))
      && c[k] !in StopWords
      && c[k] != []
  {
    NonStop(Tokens(Lower(Take(article, PrefixLength))))
  }

  /** `max(candidates, key=len, default='solar system')`. */
  function SearchTerm(article: string): (term: string)
    ensures Candidates(article) == [] ==> term == DefaultTerm
    ensures Candidates(article) != [] ==>
      exists i :: 0 <= i < |Candidates(article)| && term == Candidates(article)[i]
        && (forall j :: 0 <= j < |Candidates(article)| ==> |Candidates(article)[j]| <= |term|)
        && (forall j :: 0 <= j < i ==> |Candidates(article)[j]| < |term|)
  {
    var c := Candidates(article);
    if c == [] then DefaultTerm else c[FirstLongest(c)]
  }

  /** The three properties of FirstLongest single out one index. */
  lemma FirstLongestUnique(ws: seq<string>, i: nat)
    requires i < |ws|
    requires forall j :: 0 <= j < |ws| ==> |ws[j]| <= |ws[i]|
    requires forall j :: 0 <= j < i ==> |ws[j]| < |ws[i]|
    ensures FirstLongest(ws) == i
  {
  }

  /** Every token of the lower-cased opening is a non-empty run of word
      characters with no upper-case letter. */
  lemma TokensWellFormed(article: string)
    ensures var ts := Tokens(Lower(Take(article, PrefixLength)));
      forall k :: 0 <= k < |ts| ==>
        && ts[k] != []
        && (forall j :: 0 <= j < |ts[k]| ==> IsWordChar(ts[k][j]) && !IsUpper(ts[k][j]))
  {
    var s := Lower(Take(article, PrefixLength));
    var ts := Tokens(s);
    forall k, j | 0 <= k < |ts| && 0 <= j < |ts[k]| ensures !IsUpper(ts[k][j]) {
      assert ts[k][j] in s;
    }
  }

  /** Only the first 100 characters of the article matter. */
  lemma SearchTermReadsPrefixOnly(a: string, b: string)
    requires Take(a, PrefixLength) == Take(b, PrefixLength)
    ensures SearchTerm(a) == SearchTerm(b)
  {
  }

  /** A run of word characters cannot be "solar system", which holds a space. */
  lemma WordIsNotDefault(w: string)
    requires forall j :: 0 <= j < |w| ==> IsWordChar(w[j])
    ensures w != DefaultTerm
  {
    assert !IsWordChar(DefaultTerm[5]);
  }

  /** The default is used exactly when no candidate word is left. */
  lemma SearchTermDefaultIff(article: string)
    ensures SearchTerm(article) == DefaultTerm <==> Candidates(article) == []
  {
    var c := Candidates(article);
    if c != [] {
      var t := SearchTerm(article);
      var i :| 0 <= i < |c| && t == c[i];
      var ts := Tokens(Lower(Take(article, PrefixLength)));
      assert t in ts;
      var k :| 0 <= k < |ts| && ts[k] == t;
      WordIsNotDefault(ts[k]);
    }
  }

  /** A term other than the default is a lower-case, non-stop word of the
      article's opening. */
  lemma SearchTermIsToken(article: string)
    requires SearchTerm(article) != DefaultTerm
    ensures var ts := Tokens(Lower(Take(article, PrefixLength)));
      SearchTerm(article) in ts && SearchTerm(article) !in StopWords
    ensures var t := SearchTerm(article);
      t != [] && forall j :: 0 <= j < |t| ==> IsWordChar(t[j]) && !IsUpper(t[j])
  {
    var c := Candidates(article);
    var t := SearchTerm(article);
    var i :| 0 <= i < |c| && t == c[i];
    var ts := Tokens(Lower(Take(article, PrefixLength)));
    assert t in ts;
    var k :| 0 <= k < |ts| && ts[k] == t;
    TokensWellFormed(article);
  }
}
