/** Python `str` operations that app.py uses, stated over `seq<char>`:
    slicing, `strip`, `split`, `re.findall(r'\b\w+\b', ...)`, `replace(p, "")`,
    `lower` and the `in` substring test. */
module Text {

  /** `s[:n]`: the first `n` characters of `s`, or all of `s` when it is shorter. */
  function Take(s: string, n: nat): (r: string)
    ensures r <= s
    ensures |r| == if |s| < n then |s| else n
  {
    if |s| <= n then s else s[..n]
  }

  /** Python's `str.isspace()` on one character: the separators `strip()` and
      `split()` use when called without arguments. No whitespace character
      is a word character. */
  predicate IsSpace(c: char)
    ensures IsSpace(c) ==> !IsWordChar(c)
  {
    || '\t' <= c <= '\r'
    || '\U{1C}' <= c <= '\U{1F}'
    || c == ' '
    || c == '\U{85}'
    || c == '\U{A0}'
    || c == '\U{1680}'
    || '\U{2000}' <= c <= '\U{200A}'
    || c == '\U{2028}'
    || c == '\U{2029}'
    || c == '\U{202F}'
    || c == '\U{205F}'
    || c == '\U{3000}'
  }

  predicate NotSpace(c: char) {
    !IsSpace(c)
  }

  /** ASCII reading of the regular-expression class `\w`: letters, digits, `_`. */
  predicate IsWordChar(c: char) {
    || 'a' <= c <= 'z'
    || 'A' <= c <= 'Z'
    || '0' <= c <= '9'
    || c == '_'
  }

  predicate IsUpper(c: char) {
    'A' <= c <= 'Z'
  }

  function LowerChar(c: char): (d: char)
    ensures !IsUpper(d)
    ensures IsUpper(c) ==> d as int == c as int + 32
    ensures !IsUpper(c) ==> d == c
  {
    if IsUpper(c) then (c as int + 32) as char else c
  }

  /** `s.lower()`, ASCII letters only. */
  function Lower(s: string): (r: string)
    ensures |r| == |s|
    ensures forall i :: 0 <= i < |s| ==> r[i] == LowerChar(s[i])
    ensures forall i :: 0 <= i < |r| ==> !IsUpper(r[i])
  {
    seq(|s|, i requires 0 <= i < |s| => LowerChar(s[i]))
  }

  /** Lower-casing changes nothing exactly on a text with no upper-case
      letter, so lower-casing twice is lower-casing once. */
  lemma LowerIdempotent(s: string)
    ensures Lower(s) == s <==> forall i :: 0 <= i < |s| ==> !IsUpper(s[i])
    ensures Lower(Lower(s)) == Lower(s)
  {
    if Lower(s) == s {
      forall i | 0 <= i < |s| ensures !IsUpper(s[i]) {
        assert s[i] == Lower(s)[i];
      }
    }
  }

  /** `pat in s`: `pat` occurs in `s` at some offset. The empty text occurs
      everywhere; a text longer than `s` nowhere. */
  predicate Contains(s: string, pat: string)
    ensures pat == [] ==> Contains(s, pat)
    ensures |pat| > |s| ==> !Contains(s, pat)
  {
    assert pat == [] ==> pat <= s[0..];
    exists i | 0 <= i <= |s| :: pat <= s[i..]
  }

  /** An occurrence inside a piece of `s` is an occurrence in `s`. */
  lemma ContainsInSlice(s: string, i: nat, j: nat, pat: string)
    requires i <= j <= |s|
    requires Contains(s[i..j], pat)
    ensures Contains(s, pat)
  {
    var k :| 0 <= k <= j - i && pat <= s[i..j][k..];
    assert pat <= s[i + k..];
  }

  // ---------------------------------------------------------------------
  // strip()

  function TrimLeft(s: string): (r: string)
    ensures |r| <= |s| && r == s[|s| - |r|..]
    ensures forall k :: 0 <= k < |s| - |r| ==> IsSpace(s[k])
    ensures r != [] ==> !IsSpace(r[0])
  {
    if s != [] && IsSpace(s[0]) then TrimLeft(s[1..]) else s
  }

  function TrimRight(s: string): (r: string)
    ensures |r| <= |s| && r == s[..|r|]
    ensures forall k :: |r| <= k < |s| ==> IsSpace(s[k])
    ensures r != [] ==> !IsSpace(r[|r| - 1])
  {
    if s != [] && IsSpace(s[|s| - 1]) then TrimRight(s[..|s| - 1]) else s
  }

  /** `r` is the piece of `s` starting at `i`, and everything of `s` around
      it is whitespace. */
  ghost predicate FramedBySpace(s: string, r: string, i: int) {
    && 0 <= i <= |s| - |r|
    && r == s[i..i + |r|]
    && (forall k :: 0 <= k < i ==> IsSpace(s[k]))
    && (forall k :: i + |r| <= k < |s| ==> IsSpace(s[k]))
  }

  /** `s.strip()`: `s` without its leading and trailing whitespace. */
  function Strip(s: string): (r: string)
    ensures r == [] || (!IsSpace(r[0]) && !IsSpace(r[|r| - 1]))
    ensures exists i :: FramedBySpace(s, r, i)
  {
    var t := TrimLeft(s);
    var r := TrimRight(t);
    assert FramedBySpace(s, r, |s| - |t|);
    r
  }

  /** A text with no whitespace at either end is its own `strip()`. */
  lemma StripTrimmed(s: string)
    requires s == [] || (!IsSpace(s[0]) && !IsSpace(s[|s| - 1]))
    ensures Strip(s) == s
  {
  }

  lemma StripIdempotent(s: string)
    ensures Strip(Strip(s)) == Strip(s)
  {
    StripTrimmed(Strip(s));
  }

  /** Stripping cannot create an occurrence. */
  lemma StripKeepsAbsence(s: string, pat: string)
    requires !Contains(s, pat)
    ensures !Contains(Strip(s), pat)
  {
    var t := Strip(s);
    var i :| FramedBySpace(s, t, i);
    if Contains(t, pat) {
      ContainsInSlice(s, i, i + |t|, pat);
      assert false;
    }
  }

  // ---------------------------------------------------------------------
  // Maximal runs: re.findall(r'\b\w+\b', s) with inRun = IsWordChar,
  // s.split() with inRun = NotSpace.

  /** Length of the run of `inRun` characters that starts `s`. */
  function RunLength(s: string, inRun: char -> bool): (n: nat)
    ensures n <= |s|
    ensures forall k :: 0 <= k < n ==> inRun(s[k])
    ensures n < |s| ==> !inRun(s[n])
  {
    if s != [] && inRun(s[0]) then 1 + RunLength(s[1..], inRun) else 0
  }

  /** The maximal runs of `inRun` characters of `s`, left to right. */
  function Runs(s: string, inRun: char -> bool): (r: seq<string>)
    ensures forall k :: 0 <= k < |r| ==> r[k] != []
    ensures forall k, j :: 0 <= k < |r| && 0 <= j < |r[k]| ==> inRun(r[k][j]) && r[k][j] in s
    decreases |s|
  {
    if s == [] then []
    else if !inRun(s[0]) then Runs(s[1..], inRun)
    else
      var n := RunLength(s, inRun);
      [s[..n]] + Runs(s[n..], inRun)
  }

  lemma {:induction false} RunLengthSplit(a: string, c: char, b: string, inRun: char -> bool)
    requires !inRun(c)
    ensures RunLength(a + [c] + b, inRun) == RunLength(a, inRun)
    decreases |a|
  {
    var s := a + [c] + b;
    if a == [] {
      assert s[0] == c;
    } else if inRun(a[0]) {
      assert s[1..] == a[1..] + [c] + b;
      RunLengthSplit(a[1..], c, b, inRun);
    }
  }

  lemma {:induction false} RunLengthWhole(w: string, inRun: char -> bool)
    requires forall k :: 0 <= k < |w| ==> inRun(w[k])
    ensures RunLength(w, inRun) == |w|
    decreases |w|
  {
    if w != [] {
      RunLengthWhole(w[1..], inRun);
    }
  }

  /** A separator cuts the text in two whose runs are found independently:
      no run crosses a character outside the class. */
  lemma {:induction false} RunsSplit(a: string, c: char, b: string, inRun: char -> bool)
    requires !inRun(c)
    ensures Runs(a + [c] + b, inRun) == Runs(a, inRun) + Runs(b, inRun)
    decreases |a|
  {
    var s := a + [c] + b;
    if a == [] {
      assert s[1..] == b;
    } else if !inRun(a[0]) {
      assert s[1..] == a[1..] + [c] + b;
      RunsSplit(a[1..], c, b, inRun);
    } else {
      var n := RunLength(s, inRun);
      RunLengthSplit(a, c, b, inRun);
      assert s[0] == a[0];
      assert Runs(a, inRun) == [a[..n]] + Runs(a[n..], inRun);
      assert s[..n] == a[..n];
      assert s[n..] == a[n..] + [c] + b;
      RunsSplit(a[n..], c, b, inRun);
      assert Runs(s, inRun) == [a[..n]] + Runs(a[n..] + [c] + b, inRun);
    }
  }

  /** A non-empty text made only of class characters is a single run. */
  lemma RunsWhole(w: string, inRun: char -> bool)
    requires w != []
    requires forall k :: 0 <= k < |w| ==> inRun(w[k])
    ensures Runs(w, inRun) == [w]
  {
    RunLengthWhole(w, inRun);
    assert w[..|w|] == w;
    assert w[|w|..] == [];
    assert Runs(w, inRun) == [w[..|w|]] + Runs(w[|w|..], inRun);
  }

  /** Number of whitespace-separated words: `len(s.split())`. Words are
      separated by at least one character, so `n` words take at least
      `2 * n - 1` characters. */
  function WordCount(s: string): (n: nat)
    ensures 2 * n <= |s| + 1
  {
    RunsCountBound(s, NotSpace);
    |Runs(s, NotSpace)|
  }

  lemma {:induction false} RunsCountBound(s: string, inRun: char -> bool)
    ensures 2 * |Runs(s, inRun)| <= |s| + 1
    decreases |s|
  {
    if s != [] {
      if !inRun(s[0]) {
        RunsCountBound(s[1..], inRun);
      } else {
        var n := RunLength(s, inRun);
        if n < |s| {
          var t := s[n..];
          assert !inRun(t[0]);
          assert t[1..] == s[n + 1..];
          RunsCountBound(s[n + 1..], inRun);
        }
      }
    }
  }

  // ---------------------------------------------------------------------
  // s.replace(pat, "")

  /** `s.replace(pat, "")`: every non-overlapping occurrence of `pat`, found
      left to right, is deleted. */
  function RemoveAll(s: string, pat: string): (r: string)
    requires pat != []
    ensures |r| <= |s|
    decreases |s|
  {
    if |s| < |pat| then s
    else if pat <= s then RemoveAll(s[|pat|..], pat)
    else [s[0]] + RemoveAll(s[1..], pat)
  }

  /** Nothing to delete leaves the text as it was. */
  lemma {:induction false} RemoveAllAbsent(s: string, pat: string)
    requires pat != []
    requires !Contains(s, pat)
    ensures RemoveAll(s, pat) == s
    decreases |s|
  {
    if |s| >= |pat| {
      assert s[0..] == s;
      RemoveAllAbsent(s[1..], pat);
      assert [s[0]] + s[1..] == s;
    }
  }

  /** Deletion goes on past the first occurrence: text before the first
      occurrence is kept, that occurrence is deleted, and the rest is treated
      the same way. */
  lemma {:induction false} RemoveAllFirst(a: string, pat: string, b: string)
    requires pat != []
    requires forall j :: 0 <= j < |a| ==> !(pat <= (a + pat + b)[j..])
    ensures RemoveAll(a + pat + b, pat) == a + RemoveAll(b, pat)
    decreases |a|
  {
    var s := a + pat + b;
    if a == [] {
      assert s == pat + b;
      assert s[|pat|..] == b;
    } else {
      assert s[0..] == s;
      assert !(pat <= s);
      var t := s[1..];
      assert t == a[1..] + pat + b;
      forall j | 0 <= j < |a| - 1
        ensures !(pat <= (a[1..] + pat + b)[j..])
      {
        assert (a[1..] + pat + b)[j..] == s[j + 1..];
      }
      RemoveAllFirst(a[1..], pat, b);
      assert a == [a[0]] + a[1..];
    }
  }

  /** Deleting a text from itself leaves nothing. */
  lemma RemoveAllSelf(pat: string)
    requires pat != []
    ensures RemoveAll(pat, pat) == []
  {
    assert pat[|pat|..] == [];
  }

  /** One pass of deletion can bring two halves of the pattern together:
      the result may still contain the pattern. */
  lemma RemoveAllCanLeaveMatch()
    ensures RemoveAll("aabb", "ab") == "ab"
    ensures Contains(RemoveAll("aabb", "ab"), "ab")
  {
    var s := "aabb";
    assert s[1] != "ab"[1];
    assert s[1..] == "abb";
    assert "ab" <= s[1..];
    assert s[1..][2..] == "b";
    assert RemoveAll("b", "ab") == "b";
    assert RemoveAll(s[1..], "ab") == "b";
    assert RemoveAll(s, "ab") == "ab";
    assert "ab"[0..] == "ab";
  }
}
