/**
 * The string primitives the tokenizer relies on: `str.isalpha`, `str.lower`
 * (both restricted to ASCII letters) and `str.split()` with no argument,
 * which cuts a string at runs of whitespace and drops empty pieces.
 */
module Text {

  /** A character of Python's `str.isspace()` (the separators of `split()`). */
  predicate IsSpace(c: char)
  {
    || ('\t' <= c <= '\r')
    || ('\U{1C}' <= c <= '\U{1F}')
    || c == ' '
    || c == '\U{85}'
    || c == '\U{A0}'
    || c == '\U{1680}'
    || ('\U{2000}' <= c <= '\U{200A}')
    || c == '\U{2028}'
    || c == '\U{2029}'
    || c == '\U{202F}'
    || c == '\U{205F}'
    || c == '\U{3000}'
  }

  /** `c.isalpha()`, over ASCII letters. */
  predicate IsAlpha(c: char)
  {
    'a' <= c <= 'z' || 'A' <= c <= 'Z'
  }

  predicate IsLowerLetter(c: char)
  {
    'a' <= c <= 'z'
  }

  /** `c.lower()` for a letter: the same letter of the alphabet, in lower case. */
  function Lower(c: char): (r: char)
    requires IsAlpha(c)
    ensures IsLowerLetter(r)
    ensures IsLowerLetter(c) ==> r == c
    ensures 'A' <= c <= 'Z' ==> r as int - 'a' as int == c as int - 'A' as int
  {
    if 'A' <= c <= 'Z' then (c as int - 'A' as int + 'a' as int) as char else c
  }

  /** Index of the first whitespace character at or after `p`, or `|s|`. */
  function WordEnd(s: string, p: nat): (e: nat)
    requires p <= |s|
    ensures p <= e <= |s|
    ensures forall k :: p <= k < e ==> !IsSpace(s[k])
    ensures e == |s| || IsSpace(s[e])
    decreases |s| - p
  {
    if p == |s| || IsSpace(s[p]) then p else WordEnd(s, p + 1)
  }

  /** The words of `s[p..]`, left to right. */
  function SplitFrom(s: string, p: nat): seq<string>
    requires p <= |s|
    decreases |s| - p
  {
    if p == |s| then []
    else if IsSpace(s[p]) then SplitFrom(s, p + 1)
    else
      var e := WordEnd(s, p);
      [s[p..e]] + SplitFrom(s, e)
  }

  /** `s.split()`. */
  function Split(s: string): seq<string>
  {
    SplitFrom(s, 0)
  }

  /** `w` is a maximal run of non-whitespace characters of `s`, starting at `q`. */
  predicate WordAt(s: string, q: int, w: string)
  {
    && 0 <= q
    && q + |w| <= |s|
    && w != []
    && s[q..q + |w|] == w
    && (forall k :: q <= k < q + |w| ==> !IsSpace(s[k]))
    && (q == 0 || IsSpace(s[q - 1]))
    && (q + |w| == |s| || IsSpace(s[q + |w|]))
  }

  /** The end of the word that starts at a word boundary `q` is exactly `WordEnd(s, q)`. */
  lemma WordEndOfWord(s: string, q: nat, w: string)
    requires WordAt(s, q, w)
    ensures WordEnd(s, q) == q + |w|
  {
  }

  lemma {:induction false} SplitFromYieldsWords(s: string, p: nat, w: string)
    requires p <= |s|
    requires p == 0 || p == |s| || IsSpace(s[p - 1]) || IsSpace(s[p])
    requires w in SplitFrom(s, p)
    ensures exists q :: p <= q && WordAt(s, q, w)
    decreases |s| - p
  {
    if p == |s| {
    } else if IsSpace(s[p]) {
      SplitFromYieldsWords(s, p + 1, w);
      var q :| p + 1 <= q && WordAt(s, q, w);
    } else {
      var e := WordEnd(s, p);
      if w == s[p..e] {
        assert WordAt(s, p, w);
      } else {
        assert w in SplitFrom(s, e);
        SplitFromYieldsWords(s, e, w);
        var q :| e <= q && WordAt(s, q, w);
      }
    }
  }

  lemma {:induction false} WordsAreInSplitFrom(s: string, p: nat, q: nat, w: string)
    requires p <= q
    requires WordAt(s, q, w)
    ensures w in SplitFrom(s, p)
    decreases |s| - p
  {
    if p == q {
      WordEndOfWord(s, q, w);
      assert SplitFrom(s, p) == [w] + SplitFrom(s, q + |w|);
    } else if IsSpace(s[p]) {
      WordsAreInSplitFrom(s, p + 1, q, w);
    } else {
      var e := WordEnd(s, p);
      assert IsSpace(s[q - 1]);
      assert e <= q - 1;
      WordsAreInSplitFrom(s, e, q, w);
    }
  }

  /**
   * `split()` yields exactly the maximal whitespace-free runs of `s`:
   * every piece is one of them, and each of them is a piece.
   */
  lemma SplitWords(s: string, w: string)
    ensures w in Split(s) <==> exists q :: WordAt(s, q, w)
  {
    if w in Split(s) {
      SplitFromYieldsWords(s, 0, w);
    }
    if exists q :: WordAt(s, q, w) {
      var q :| WordAt(s, q, w);
      WordsAreInSplitFrom(s, 0, q, w);
    }
  }
}
