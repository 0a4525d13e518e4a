/**
 * `StringHelpers.ReplaceWord`: `Regex.Replace(original, @"\b" + word + @"\b", replacement)`.
 * The pattern is taken to be the literal word (every caller passes plain words);
 * `\w` is taken over ASCII: letters, digits and '_'.
 */
module StringHelpers {

  /** `System.Text.RegularExpressions.RegexOptions`, a flags enumeration. */
  datatype RegexOptions = RegexOptions(flags: nat)

  const NO_OPTIONS := RegexOptions(0)

  /** A character of the regex class `\w`, restricted to ASCII. */
  predicate IsWordChar(c: char) {
    ('a' <= c <= 'z') || ('A' <= c <= 'Z') || ('0' <= c <= '9') || c == '_'
  }

  /** Every character of `w` is a word character. */
  predicate IsWord(w: string) {
    forall k :: 0 <= k < |w| ==> IsWordChar(w[k])
  }

  /** The anchor `\b` holds at position `i` of `s`: a word character on exactly one side. */
  predicate Boundary(s: string, i: nat)
    requires i <= |s|
  {
    (i > 0 && IsWordChar(s[i - 1])) != (i < |s| && IsWordChar(s[i]))
  }

  /** The pattern `\bw\b` matches `s` at position `i`. */
  predicate OccursAt(s: string, w: string, i: nat) {
    i + |w| <= |s| && s[i..i + |w|] == w && Boundary(s, i) && Boundary(s, i + |w|)
  }

  /**
   * The output of `Regex.Replace` from position `i` on: the leftmost match is
   * replaced and scanning resumes after it; after an empty match the next
   * character is copied and scanning resumes one position further.
   */
  function ReplaceFrom(s: string, w: string, r: string, i: nat): string
    requires i <= |s| + 1
    decreases |s| + 1 - i
  {
    if i > |s| then []
    else if OccursAt(s, w, i) then
      if |w| == 0 then r + (if i < |s| then [s[i]] else []) + ReplaceFrom(s, w, r, i + 1)
      else r + ReplaceFrom(s, w, r, i + |w|)
    else if i < |s| then [s[i]] + ReplaceFrom(s, w, r, i + 1)
    else []
  }

  /** `original.ReplaceWord(wordToFind, replacement, regexOptions)`. */
  function ReplaceWord(original: string, wordToFind: string, replacement: string,
                       regexOptions: RegexOptions := NO_OPTIONS): string
  {
    ReplaceFrom(original, wordToFind, replacement, 0)
  }

  /**
   * The source calls `Regex.Replace` with no options, so the `regexOptions`
   * argument is dropped: it cannot change the result.
   */
  lemma ReplaceWordIgnoresOptions(s: string, w: string, r: string, o1: RegexOptions, o2: RegexOptions)
    ensures ReplaceWord(s, w, r, o1) == ReplaceWord(s, w, r, o2)
  {
  }

  /** No whole-word occurrence of `w` at or after `i`: the rest of `s` is copied unchanged. */
  lemma {:induction false} ReplaceFromNoOccurrence(s: string, w: string, r: string, i: nat)
    requires i <= |s|
    requires forall j :: i <= j <= |s| ==> !OccursAt(s, w, j)
    ensures ReplaceFrom(s, w, r, i) == s[i..]
    decreases |s| - i
  {
    if i < |s| {
      ReplaceFromNoOccurrence(s, w, r, i + 1);
      assert s[i..] == [s[i]] + s[i + 1..];
    }
  }

  /** A string with no whole-word occurrence of the word comes back unchanged. */
  lemma ReplaceWordNoOccurrence(s: string, w: string, r: string)
    requires forall j :: 0 <= j <= |s| ==> !OccursAt(s, w, j)
    ensures ReplaceWord(s, w, r) == s
  {
    ReplaceFromNoOccurrence(s, w, r, 0);
  }

  /** A word holding a character the text lacks never occurs in it: the text comes back unchanged. */
  lemma ReplaceWordAbsentChar(s: string, w: string, r: string, c: char)
    requires c in w && c !in s
    ensures ReplaceWord(s, w, r) == s
  {
    ReplaceWordNoOccurrence(s, w, r);
  }

  /**
   * Replacing the word by its own text, when the word starts and ends with a
   * word character, yields the replacement.
   */
  lemma ReplaceWordOfItself(w: string, r: string)
    requires |w| > 0 && IsWordChar(w[0]) && IsWordChar(w[|w| - 1])
    ensures ReplaceWord(w, w, r) == r
  {
    assert OccursAt(w, w, 0);
    assert ReplaceFrom(w, w, r, |w|) == [];
  }

  /** Without word characters at its ends the word does not even match itself: `\b` fails. */
  lemma ReplaceWordEmptyNeverMatchesItself(r: string)
    requires |r| > 0
    ensures ReplaceWord([], [], r) != r
  {
    assert !Boundary([], 0);
  }

  /**
   * Inside a run of word characters, a non-empty `w` is replaced only if the
   * run is `w` itself: an occurrence with a word character just before or
   * after it is left alone ("int" inside "int32" or "uint").
   */
  lemma ReplaceWordInsideWord(t: string, w: string, r: string)
    requires IsWord(t) && |w| > 0
    ensures ReplaceWord(t, w, r) == if t == w then r else t
  {
    if t == w {
      ReplaceWordOfItself(w, r);
    } else {
      forall j | 0 <= j <= |t|
        ensures !OccursAt(t, w, j)
      {
        if j + |w| > |t| {
        } else if j > 0 {
          assert !Boundary(t, j);
        } else if j + |w| < |t| {
          assert !Boundary(t, j + |w|);
        } else if j + |w| == |t| {
          assert t[j..j + |w|] == t;
        }
      }
      ReplaceWordNoOccurrence(t, w, r);
    }
  }

  /** Positions up to `m` of `s` match exactly where they match in the prefix `s[..m]`, if `s[m]` is a non-word character. */
  lemma OccursBeforeSeparator(s: string, m: nat, w: string, i: nat)
    requires IsWord(w) && |w| > 0 && m < |s| && !IsWordChar(s[m]) && i <= m
    ensures OccursAt(s, w, i) == OccursAt(s[..m], w, i)
  {
    var a := s[..m];
    if i + |w| <= m {
      assert s[i..i + |w|] == a[i..i + |w|];
      assert i < m ==> s[i] == a[i];
      assert i > 0 ==> s[i - 1] == a[i - 1];
      assert i + |w| < m ==> s[i + |w|] == a[i + |w|];
    } else if i + |w| <= |s| {
      assert s[i..i + |w|][m - i] == s[m];
    }
  }

  /** A scan of a non-empty word at one of its occurrences emits the replacement and skips the word. */
  lemma ReplaceFromAtOccurrence(s: string, w: string, r: string, i: nat)
    requires |w| > 0 && OccursAt(s, w, i)
    ensures ReplaceFrom(s, w, r, i) == r + ReplaceFrom(s, w, r, i + |w|)
  {
  }

  /** A scan of a non-empty word elsewhere before the end copies one character. */
  lemma ReplaceFromElsewhere(s: string, w: string, r: string, i: nat)
    requires |w| > 0 && i < |s| && !OccursAt(s, w, i)
    ensures ReplaceFrom(s, w, r, i) == [s[i]] + ReplaceFrom(s, w, r, i + 1)
  {
  }

  /** A scan of a non-empty word that has reached the end emits nothing. */
  lemma ReplaceFromAtEnd(s: string, w: string, r: string)
    requires |w| > 0
    ensures ReplaceFrom(s, w, r, |s|) == []
  {
  }

  /** Occurrences before a non-word character `s[|a|]` are the occurrences in the prefix `a`. */
  lemma {:induction false} ReplaceFromBeforeSeparator(s: string, m: nat, w: string, r: string, i: nat)
    requires IsWord(w) && |w| > 0 && m < |s| && !IsWordChar(s[m]) && i <= m
    ensures ReplaceFrom(s, w, r, i) == ReplaceFrom(s[..m], w, r, i) + [s[m]] + ReplaceFrom(s, w, r, m + 1)
    decreases m - i, 1
  {
    if i == m {
      OccursBeforeSeparator(s, m, w, i);
      ReplaceFromAtEnd(s[..m], w, r);
      ReplaceFromElsewhere(s, w, r, i);
    } else if OccursAt(s[..m], w, i) {
      ReplaceFromBeforeSeparatorAtOccurrence(s, m, w, r, i);
    } else {
      ReplaceFromBeforeSeparatorElsewhere(s, m, w, r, i);
    }
  }

  /** `ReplaceFromBeforeSeparator` at an occurrence in the prefix. */
  lemma {:induction false} ReplaceFromBeforeSeparatorAtOccurrence(s: string, m: nat, w: string, r: string, i: nat)
    requires IsWord(w) && |w| > 0 && m < |s| && !IsWordChar(s[m]) && OccursAt(s[..m], w, i)
    ensures ReplaceFrom(s, w, r, i) == ReplaceFrom(s[..m], w, r, i) + [s[m]] + ReplaceFrom(s, w, r, m + 1)
    decreases m - i, 0
  {
    OccursBeforeSeparator(s, m, w, i);
    ReplaceFromBeforeSeparator(s, m, w, r, i + |w|);
    ReplaceFromPrefixAtOccurrence(s, s[..m], w, r, i, [s[m]], ReplaceFrom(s, w, r, m + 1));
  }

  /** `ReplaceFromBeforeSeparator` at a position of the prefix that starts no occurrence. */
  lemma {:induction false} ReplaceFromBeforeSeparatorElsewhere(s: string, m: nat, w: string, r: string, i: nat)
    requires IsWord(w) && |w| > 0 && m < |s| && !IsWordChar(s[m]) && i < m && !OccursAt(s[..m], w, i)
    ensures ReplaceFrom(s, w, r, i) == ReplaceFrom(s[..m], w, r, i) + [s[m]] + ReplaceFrom(s, w, r, m + 1)
    decreases m - i, 0
  {
    OccursBeforeSeparator(s, m, w, i);
    assert s[i] == s[..m][i];
    ReplaceFromBeforeSeparator(s, m, w, r, i + 1);
    ReplaceFromPrefixElsewhere(s, s[..m], w, r, i, [s[m]], ReplaceFrom(s, w, r, m + 1));
  }

  /** Scanning `s` yields scanning `a` followed by `c + t` from an occurrence on, if it does after it. */
  lemma ReplaceFromPrefixAtOccurrence(s: string, a: string, w: string, r: string, i: nat, c: string, t: string)
    requires |w| > 0 && OccursAt(s, w, i) && OccursAt(a, w, i)
    requires ReplaceFrom(s, w, r, i + |w|) == ReplaceFrom(a, w, r, i + |w|) + c + t
    ensures ReplaceFrom(s, w, r, i) == ReplaceFrom(a, w, r, i) + c + t
  {
    ReplaceFromAtOccurrence(s, w, r, i);
    ReplaceFromAtOccurrence(a, w, r, i);
    ConcatAssociates(r, ReplaceFrom(a, w, r, i + |w|), c, t);
  }

  /** Scanning `s` yields scanning `a` followed by `c + t` from a common character that starts no occurrence, if it does after it. */
  lemma ReplaceFromPrefixElsewhere(s: string, a: string, w: string, r: string, i: nat, c: string, t: string)
    requires |w| > 0 && i < |s| && i < |a| && s[i] == a[i] && !OccursAt(s, w, i) && !OccursAt(a, w, i)
    requires ReplaceFrom(s, w, r, i + 1) == ReplaceFrom(a, w, r, i + 1) + c + t
    ensures ReplaceFrom(s, w, r, i) == ReplaceFrom(a, w, r, i) + c + t
  {
    ReplaceFromElsewhere(s, w, r, i);
    ReplaceFromElsewhere(a, w, r, i);
    ConcatAssociates([a[i]], ReplaceFrom(a, w, r, i + 1), c, t);
  }

  /** Concatenation regroups: `p + (x + c + t) == (p + x) + c + t`. */
  lemma ConcatAssociates(p: string, x: string, c: string, t: string)
    ensures p + (x + c + t) == (p + x) + c + t
  {
  }

  /** Positions of the suffix `s[n..]` match exactly where they match in `s`, if `s[n - 1]` is a non-word character. */
  lemma OccursAfterSeparator(s: string, n: nat, w: string, j: nat)
    requires 0 < n <= |s| && !IsWordChar(s[n - 1]) && j <= |s| - n
    ensures OccursAt(s, w, n + j) == OccursAt(s[n..], w, j)
  {
    var b := s[n..];
    var i := n + j;
    if j + |w| <= |b| {
      assert s[i..i + |w|] == b[j..j + |w|];
      assert j > 0 ==> s[i - 1] == b[j - 1];
      assert j < |b| ==> s[i] == b[j];
      assert j + |w| < |b| ==> s[i + |w|] == b[j + |w|];
    }
  }

  /** Scanning `s` and scanning a suffix `t` of it agree from an occurrence on, if they agree after it. */
  lemma ReplaceFromShiftAtOccurrence(s: string, t: string, w: string, r: string, i: nat, j: nat)
    requires |w| > 0 && OccursAt(s, w, i) && OccursAt(t, w, j)
    requires ReplaceFrom(s, w, r, i + |w|) == ReplaceFrom(t, w, r, j + |w|)
    ensures ReplaceFrom(s, w, r, i) == ReplaceFrom(t, w, r, j)
  {
    ReplaceFromAtOccurrence(s, w, r, i);
    ReplaceFromAtOccurrence(t, w, r, j);
  }

  /** Scanning `s` and `t` agree from a common character that starts no occurrence, if they agree after it. */
  lemma ReplaceFromShiftElsewhere(s: string, t: string, w: string, r: string, i: nat, j: nat)
    requires |w| > 0 && i < |s| && j < |t| && s[i] == t[j] && !OccursAt(s, w, i) && !OccursAt(t, w, j)
    requires ReplaceFrom(s, w, r, i + 1) == ReplaceFrom(t, w, r, j + 1)
    ensures ReplaceFrom(s, w, r, i) == ReplaceFrom(t, w, r, j)
  {
    ReplaceFromElsewhere(s, w, r, i);
    ReplaceFromElsewhere(t, w, r, j);
  }

  /** After a non-word character `s[n - 1]`, scanning `s` behaves as scanning the suffix `s[n..]` alone. */
  lemma {:induction false} ReplaceFromAfterSeparator(s: string, n: nat, w: string, r: string, j: nat)
    requires 0 < n <= |s| && !IsWordChar(s[n - 1]) && |w| > 0 && j <= |s| - n
    ensures ReplaceFrom(s, w, r, n + j) == ReplaceFrom(s[n..], w, r, j)
    decreases |s| - n - j, 1
  {
    if j == |s| - n {
      ReplaceFromAtEnd(s, w, r);
      ReplaceFromAtEnd(s[n..], w, r);
    } else if OccursAt(s[n..], w, j) {
      ReplaceFromAfterSeparatorAtOccurrence(s, n, w, r, j);
    } else {
      ReplaceFromAfterSeparatorElsewhere(s, n, w, r, j);
    }
  }

  /** `ReplaceFromAfterSeparator` at an occurrence in the suffix. */
  lemma {:induction false} ReplaceFromAfterSeparatorAtOccurrence(s: string, n: nat, w: string, r: string, j: nat)
    requires 0 < n <= |s| && !IsWordChar(s[n - 1]) && |w| > 0 && OccursAt(s[n..], w, j)
    ensures ReplaceFrom(s, w, r, n + j) == ReplaceFrom(s[n..], w, r, j)
    decreases |s| - n - j, 0
  {
    OccursAfterSeparator(s, n, w, j);
    var k := j + |w|;
    ReplaceFromAfterSeparator(s, n, w, r, k);
    assert n + j + |w| == n + k;
    ReplaceFromShiftAtOccurrence(s, s[n..], w, r, n + j, j);
  }

  /** `ReplaceFromAfterSeparator` at a position of the suffix that starts no occurrence. */
  lemma {:induction false} ReplaceFromAfterSeparatorElsewhere(s: string, n: nat, w: string, r: string, j: nat)
    requires 0 < n <= |s| && !IsWordChar(s[n - 1]) && |w| > 0 && j < |s| - n && !OccursAt(s[n..], w, j)
    ensures ReplaceFrom(s, w, r, n + j) == ReplaceFrom(s[n..], w, r, j)
    decreases |s| - n - j, 0
  {
    OccursAfterSeparator(s, n, w, j);
    ReplaceFromAfterSeparator(s, n, w, r, j + 1);
    assert s[n..][j] == s[n + j];
    ReplaceFromShiftElsewhere(s, s[n..], w, r, n + j, j);
  }

  /**
   * Replacement of a plain word is local to the pieces between non-word
   * characters: every whole-word occurrence is replaced, left to right.
   */
  lemma ReplaceWordAroundSeparator(a: string, c: char, b: string, w: string, r: string)
    requires IsWord(w) && |w| > 0 && !IsWordChar(c)
    ensures ReplaceWord(a + [c] + b, w, r) == ReplaceWord(a, w, r) + [c] + ReplaceWord(b, w, r)
  {
    var s := a + [c] + b;
    assert s[..|a|] == a && s[|a|] == c;
    ReplaceFromBeforeSeparator(s, |a|, w, r, 0);
    assert s[|a| + 1..] == b;
    ReplaceFromAfterSeparator(s, |a| + 1, w, r, 0);
  }

  /** "int int" becomes "int32 int32". */
  lemma ReplaceWordEveryOccurrence()
    ensures ReplaceWord("int int", "int", "int32") == "int32 int32"
  {
    ReplaceWordAroundSeparator("int", ' ', "int", "int", "int32");
    assert "int int" == "int" + [' '] + "int";
    ReplaceWordOfItself("int", "int32");
  }

  /** "int" inside "int32" and "uint" is not a whole word. */
  lemma ReplaceWordSkipsLongerWords()
    ensures ReplaceWord("int32", "int", "int32") == "int32"
    ensures ReplaceWord("uint", "int", "int32") == "uint"
  {
    ReplaceWordInsideWord("int32", "int", "int32");
    ReplaceWordInsideWord("uint", "int", "int32");
  }
}
