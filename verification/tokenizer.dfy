/**
 * The tokenizer: `is_emoji` recognises an emoticon after a space, and
 * `nettoyage` scans a tweet character by character, lowercasing letters,
 * copying emoticons verbatim and turning everything else into a space,
 * then splits the cleaned text into words.
 */
module Tokenizer {
  import opened Text

  /** The characters an emoticon is made of. */
  const Symbols: string := ":;)(-=<3DPX/"

  predicate IsSymbol(c: char)
  {
    || c == ':' || c == ';' || c == ')' || c == '(' || c == '-' || c == '='
    || c == '<' || c == '3' || c == 'D' || c == 'P' || c == 'X' || c == '/'
  }

  lemma SymbolsAreTheSymbols(c: char)
    ensures c in Symbols <==> IsSymbol(c)
  {
    if c in Symbols {
      var k :| 0 <= k < |Symbols| && Symbols[k] == c;
      assert k < 12;
    }
  }

  /**
   * Position `i` of `t` is a space followed by exactly `n` emoticon symbols
   * (one or two), which are followed by a space or by the end of the text.
   */
  predicate EmoticonOf(t: string, i: int, n: int)
  {
    && 0 <= i
    && 1 <= n <= 2
    && i + n < |t|
    && t[i] == ' '
    && (forall m :: i < m <= i + n ==> IsSymbol(t[m]))
    && (i + n + 1 == |t| || t[i + n + 1] == ' ')
  }

  /** Position `k` is one of the symbols of an emoticon that `EmoticonOf` recognises. */
  predicate InEmoticon(t: string, k: int)
  {
    || (1 <= k && (EmoticonOf(t, k - 1, 1) || EmoticonOf(t, k - 1, 2)))
    || (2 <= k && EmoticonOf(t, k - 2, 2))
  }

  lemma InEmoticonIntro(t: string, j: int, n: int, k: int)
    requires EmoticonOf(t, j, n) && j < k <= j + n
    ensures InEmoticon(t, k)
  {
  }

  lemma InEmoticonElim(t: string, k: int) returns (j: int, n: int)
    requires InEmoticon(t, k)
    ensures EmoticonOf(t, j, n) && j < k <= j + n
  {
    if 1 <= k && EmoticonOf(t, k - 1, 1) {
      j, n := k - 1, 1;
    } else if 1 <= k && EmoticonOf(t, k - 1, 2) {
      j, n := k - 1, 2;
    } else {
      j, n := k - 2, 2;
    }
  }

  /**
   * `is_emoji(texte, i)`: counts the emoticon symbols after a space at `i`
   * (looking at no more than three of them) and accepts one or two symbols
   * followed by a space or the end of the text.
   */
  method IsEmoji(texte: string, i: nat) returns (b: bool)
    requires i < |texte|
    ensures b <==> exists n :: EmoticonOf(texte, i, n)
  {
    if texte[i] == ' ' {
      var nbCarac := 1;
      while i + nbCarac < |texte| && nbCarac <= 3 && texte[i + nbCarac] in Symbols
        invariant 1 <= nbCarac <= 4
        invariant i + nbCarac <= |texte|
        invariant forall m :: i < m < i + nbCarac ==> IsSymbol(texte[m])
      {
        SymbolsAreTheSymbols(texte[i + nbCarac]);
        nbCarac := nbCarac + 1;
      }
      if i + nbCarac < |texte| {
        SymbolsAreTheSymbols(texte[i + nbCarac]);
      }
      b := nbCarac > 1 && nbCarac < 4 && (i + nbCarac == |texte| || texte[i + nbCarac] == ' ');
      if b {
        assert EmoticonOf(texte, i, nbCarac - 1);
      }
    } else {
      b := false;
    }
  }

  /**
   * The character the scan of `nettoyage` writes for position `k` of `t`:
   * an emoticon symbol is kept as it is, a letter is lowercased and any other
   * character becomes a space.
   */
  function CleanAt(t: string, k: int): char
    requires 0 <= k < |t|
  {
    if InEmoticon(t, k) then t[k]
    else if IsAlpha(t[k]) then Lower(t[k])
    else ' '
  }

  /** The cleaned text `texte_propre`, position by position. */
  function Clean(t: string): (c: string)
    ensures |c| == |t|
    ensures forall k :: 0 <= k < |t| ==> c[k] == CleanAt(t, k)
  {
    seq(|t|, k requires 0 <= k < |t| => CleanAt(t, k))
  }

  /** The words of a tweet: the cleaned text, split at whitespace. */
  function Tokenize(t: string): seq<string>
  {
    Split(Clean(t))
  }

  /**
   * `nettoyage(texte)`. The scan consumes one input character per output
   * character, so `|texte_propre| == i` throughout, and a scan step never
   * starts inside an emoticon.
   */
  method Nettoyage(texte: string) returns (mots: seq<string>)
    ensures mots == Tokenize(texte)
  {
    var i := 0;
    var textePropre := "";
    while i < |texte|
      invariant 0 <= i <= |texte|
      invariant |textePropre| == i
      invariant forall k :: 0 <= k < i ==> textePropre[k] == CleanAt(texte, k)
      invariant i < |texte| ==> !InEmoticon(texte, i)
      decreases |texte| - i
    {
      if IsAlpha(texte[i]) {
        textePropre := textePropre + [Lower(texte[i])];
        i := i + 1;
        assert i < |texte| ==> !InEmoticon(texte, i) by {
          if i < |texte| && InEmoticon(texte, i) {
            var j, n := InEmoticonElim(texte, i);
            InEmoticonIntro(texte, j, n, i - 1);
          }
        }
      } else {
        var emoji := IsEmoji(texte, i);
        if emoji {
          ghost var j := i;
          ghost var n :| EmoticonOf(texte, j, n);
          textePropre := textePropre + [texte[i]];
          i := i + 1;
          while i < |texte| && texte[i] != ' '
            invariant j < i <= j + n + 1
            invariant |textePropre| == i
            invariant forall k :: 0 <= k < i ==> textePropre[k] == CleanAt(texte, k)
            decreases |texte| - i
          {
            InEmoticonIntro(texte, j, n, i);
            textePropre := textePropre + [texte[i]];
            i := i + 1;
          }
          assert i == j + n + 1;
        } else {
          textePropre := textePropre + " ";
          i := i + 1;
          assert i < |texte| ==> !InEmoticon(texte, i) by {
            if i < |texte| && InEmoticon(texte, i) {
              var j, n := InEmoticonElim(texte, i);
              if j != i - 1 {
                InEmoticonIntro(texte, j, n, i - 1);
              }
            }
          }
        }
      }
    }
    assert textePropre == Clean(texte);
    mots := Split(textePropre);
  }

  /** A word made of lowercase ASCII letters only. */
  predicate IsLowerWord(w: string)
  {
    forall k :: 0 <= k < |w| ==> IsLowerLetter(w[k])
  }

  /** `w` is the verbatim symbol run of an emoticon of `t`. */
  predicate IsEmoticonToken(t: string, w: string)
  {
    exists j :: 0 <= j < |t| && EmoticonOf(t, j, |w|) && t[j + 1..j + 1 + |w|] == w
  }

  /** `w.lower()` for a word of letters. */
  function LowerWord(w: string): (r: string)
    requires forall k :: 0 <= k < |w| ==> IsAlpha(w[k])
    ensures |r| == |w| && IsLowerWord(r)
    ensures forall k :: 0 <= k < |w| ==> r[k] == Lower(w[k])
  {
    seq(|w|, k requires 0 <= k < |w| => Lower(w[k]))
  }

  lemma SymbolIsNotSpace(c: char)
    requires IsSymbol(c)
    ensures !IsSpace(c)
  {
  }

  /** A space of the input is a space of the cleaned text. */
  lemma SpaceStaysSpace(t: string, k: int)
    requires 0 <= k < |t| && t[k] == ' '
    ensures CleanAt(t, k) == ' '
  {
  }

  /** A symbol of an emoticon is copied to the cleaned text. */
  lemma CleanInEmoticon(t: string, j: int, n: int, p: int)
    requires EmoticonOf(t, j, n) && j < p <= j + n
    ensures Clean(t)[p] == t[p] && IsSymbol(t[p]) && !IsSpace(t[p])
  {
    InEmoticonIntro(t, j, n, p);
    SymbolIsNotSpace(t[p]);
  }

  /** A word of the cleaned text that starts inside an emoticon is that emoticon. */
  lemma WordInEmoticon(t: string, q: int, w: string)
    requires WordAt(Clean(t), q, w) && InEmoticon(t, q)
    ensures IsEmoticonToken(t, w)
  {
    var c := Clean(t);
    var j := EmoticonWordStart(t, q, w);
    forall k | 0 <= k < |w| ensures w[k] == t[j + 1 + k] {
      assert w[k] == c[q..q + |w|][k];
      CleanInEmoticon(t, j, |w|, j + 1 + k);
    }
    assert t[j + 1..j + 1 + |w|] == w;
  }

  /** A word of the cleaned text that starts inside an emoticon spans exactly its symbols. */
  lemma EmoticonWordStart(t: string, q: int, w: string) returns (j: int)
    requires WordAt(Clean(t), q, w) && InEmoticon(t, q)
    ensures 0 <= j < |t| && q == j + 1 && EmoticonOf(t, j, |w|)
  {
    var n;
    j, n := InEmoticonElim(t, q);
    if q == j + 2 {
      CleanInEmoticon(t, j, n, q - 1);
      assert false;
    }
    if |w| < n {
      CleanInEmoticon(t, j, n, q + |w|);
      assert false;
    }
    if |w| > n {
      SpaceStaysSpace(t, j + n + 1);
      assert false;
    }
  }

  /** A word of the cleaned text that starts outside an emoticon is made of lowercase letters. */
  lemma WordOutsideEmoticon(t: string, q: int, w: string)
    requires WordAt(Clean(t), q, w) && !InEmoticon(t, q)
    ensures IsLowerWord(w)
  {
    var c := Clean(t);
    forall k | 0 <= k < |w| ensures IsLowerLetter(w[k]) {
      var p := q + k;
      assert w[k] == c[p];
      if InEmoticon(t, p) {
        var j, n := InEmoticonElim(t, p);
        if j >= q {
          SpaceStaysSpace(t, j);
        } else {
          InEmoticonIntro(t, j, n, q);
        }
        assert false;
      }
    }
  }

  /**
   * Every word `nettoyage` returns is non-empty and free of whitespace, and
   * it is either a run of lowercase letters or the one or two symbols of an
   * emoticon, copied verbatim, that follow a space of the input and precede
   * a space or the end of the text.
   */
  lemma TokenShape(t: string, w: string)
    requires w in Tokenize(t)
    ensures w != []
    ensures forall k :: 0 <= k < |w| ==> !IsSpace(w[k])
    ensures IsLowerWord(w) || IsEmoticonToken(t, w)
  {
    var c := Clean(t);
    SplitWords(c, w);
    var q :| WordAt(c, q, w);
    assert forall k :: 0 <= k < |w| ==> w[k] == c[q + k];
    if InEmoticon(t, q) {
      WordInEmoticon(t, q, w);
    } else {
      WordOutsideEmoticon(t, q, w);
    }
  }

  /** Every emoticon of the input is kept as a word, verbatim. */
  lemma EmoticonKept(t: string, j: int, n: int)
    requires EmoticonOf(t, j, n)
    ensures t[j + 1..j + n + 1] in Tokenize(t)
  {
    var c := Clean(t);
    var w := t[j + 1..j + n + 1];
    SpaceStaysSpace(t, j);
    if j + n + 1 < |t| {
      SpaceStaysSpace(t, j + n + 1);
    }
    EmoticonCleaned(t, j, n);
    forall k | j + 1 <= k < j + 1 + n ensures !IsSpace(c[k]) {
      assert c[k] == w[k - j - 1];
      SymbolIsNotSpace(w[k - j - 1]);
    }
    assert WordAt(c, j + 1, w);
    SplitWords(c, w);
  }

  /** The symbols of an emoticon appear unchanged in the cleaned text. */
  lemma EmoticonCleaned(t: string, j: int, n: int)
    requires EmoticonOf(t, j, n)
    ensures Clean(t)[j + 1..j + n + 1] == t[j + 1..j + n + 1]
  {
    var cleaned := Clean(t)[j + 1..j + n + 1];
    var symbols := t[j + 1..j + n + 1];
    forall k | 0 <= k < n ensures cleaned[k] == symbols[k] {
      InEmoticonIntro(t, j, n, j + 1 + k);
    }
  }

  /** A letter outside every emoticon is lowercased in the cleaned text. */
  lemma CleanLetter(t: string, p: int)
    requires 0 <= p < |t| && IsAlpha(t[p]) && !InEmoticon(t, p)
    ensures Clean(t)[p] == Lower(t[p])
  {
  }

  /**
   * No position of a run of letters that starts outside every emoticon lies
   * in an emoticon, and neither do the non-letters just before and after it.
   */
  lemma LetterRunOutsideEmoticons(t: string, q: int, len: int, p: int)
    requires 0 <= q && 1 <= len && q + len <= |t|
    requires forall k :: q <= k < q + len ==> IsAlpha(t[k])
    requires !InEmoticon(t, q)
    requires q - 1 <= p <= q + len
    ensures !InEmoticon(t, p)
  {
    if InEmoticon(t, p) {
      var j, n := InEmoticonElim(t, p);
      if p == q - 1 {
        if q - 1 < j + n {
          InEmoticonIntro(t, j, n, q);
        }
      } else if j < q {
        InEmoticonIntro(t, j, n, q);
      }
    }
  }

  /** A run of letters that starts outside every emoticon is lowercased in the cleaned text. */
  lemma LetterRunCleaned(t: string, q: int, len: int)
    requires 0 <= q && 1 <= len && q + len <= |t|
    requires forall k :: q <= k < q + len ==> IsAlpha(t[k])
    requires !InEmoticon(t, q)
    ensures Clean(t)[q..q + len] == LowerWord(t[q..q + len])
  {
    var c := Clean(t);
    var w := LowerWord(t[q..q + len]);
    forall k | 0 <= k < len ensures c[q..q + len][k] == w[k] {
      LetterRunOutsideEmoticons(t, q, len, q + k);
      CleanLetter(t, q + k);
    }
  }

  /** The non-letters around a maximal run of letters become spaces in the cleaned text. */
  lemma LetterRunBounded(t: string, q: int, len: int)
    requires 0 <= q && 1 <= len && q + len <= |t|
    requires forall k :: q <= k < q + len ==> IsAlpha(t[k])
    requires q == 0 || !IsAlpha(t[q - 1])
    requires q + len == |t| || !IsAlpha(t[q + len])
    requires !InEmoticon(t, q)
    ensures q == 0 || IsSpace(Clean(t)[q - 1])
    ensures q + len == |t| || IsSpace(Clean(t)[q + len])
  {
    if q > 0 {
      LetterRunOutsideEmoticons(t, q, len, q - 1);
    }
    if q + len < |t| {
      LetterRunOutsideEmoticons(t, q, len, q + len);
    }
  }

  /**
   * `t[q..q + len]` is a maximal run of letters of `t` that does not start
   * inside an emoticon.
   */
  predicate LetterRun(t: string, q: int, len: int)
  {
    && 0 <= q && 1 <= len && q + len <= |t|
    && (forall k :: q <= k < q + len ==> IsAlpha(t[k]))
    && (q == 0 || !IsAlpha(t[q - 1]))
    && (q + len == |t| || !IsAlpha(t[q + len]))
    && !InEmoticon(t, q)
  }

  /**
   * Every maximal run of letters of the input that does not belong to an
   * emoticon comes out as one word, lowercased.
   */
  lemma LetterRunKept(t: string, q: int, len: int)
    requires LetterRun(t, q, len)
    ensures LowerWord(t[q..q + len]) in Tokenize(t)
  {
    LetterRunWord(t, q, len);
    SplitWords(Clean(t), LowerWord(t[q..q + len]));
  }

  /** A maximal run of letters outside every emoticon is a word of the cleaned text. */
  lemma LetterRunWord(t: string, q: int, len: int)
    requires 0 <= q && 1 <= len && q + len <= |t|
    requires forall k :: q <= k < q + len ==> IsAlpha(t[k])
    requires q == 0 || !IsAlpha(t[q - 1])
    requires q + len == |t| || !IsAlpha(t[q + len])
    requires !InEmoticon(t, q)
    ensures WordAt(Clean(t), q, LowerWord(t[q..q + len]))
  {
    var c := Clean(t);
    var w := LowerWord(t[q..q + len]);
    LetterRunCleaned(t, q, len);
    LetterRunBounded(t, q, len);
    forall k | q <= k < q + len ensures !IsSpace(c[k]) {
      assert c[k] == w[k - q];
    }
  }

  /**
   * The converse of `LetterRunKept`: every word returned that is not an
   * emoticon of the input is a maximal run of letters of the input,
   * outside every emoticon, lowercased. No other word is produced.
   */
  lemma LetterWordIsRun(t: string, w: string)
    requires w in Tokenize(t) && !IsEmoticonToken(t, w)
    ensures exists q :: LetterRun(t, q, |w|) && w == LowerWord(t[q..q + |w|])
  {
    var c := Clean(t);
    SplitWords(c, w);
    var q :| WordAt(c, q, w);
    if InEmoticon(t, q) {
      WordInEmoticon(t, q, w);
      assert false;
    }
    CleanWordIsRun(t, q, w);
  }

  /** A word of the cleaned text that starts outside every emoticon is a lowercased maximal run of letters. */
  lemma CleanWordIsRun(t: string, q: int, w: string)
    requires WordAt(Clean(t), q, w) && !InEmoticon(t, q)
    ensures LetterRun(t, q, |w|) && w == LowerWord(t[q..q + |w|])
  {
    CleanWordLetters(t, q, w);
    CleanWordBounded(t, q, w);
    LowerWordOfRun(t, q, w);
  }

  /** The characters around such a word are no letters. */
  lemma CleanWordBounded(t: string, q: int, w: string)
    requires WordAt(Clean(t), q, w)
    ensures q == 0 || !IsAlpha(t[q - 1])
    ensures q + |w| == |t| || !IsAlpha(t[q + |w|])
  {
    if q > 0 {
      CleanSpace(t, q - 1);
    }
    if q + |w| < |t| {
      CleanSpace(t, q + |w|);
    }
  }

  /** A word that lowercases the letters of `t[q..q + |w|]` one by one is `LowerWord` of them. */
  lemma LowerWordOfRun(t: string, q: int, w: string)
    requires 0 <= q && q + |w| <= |t|
    requires forall p :: q <= p < q + |w| ==> IsAlpha(t[p]) && w[p - q] == Lower(t[p])
    ensures w == LowerWord(t[q..q + |w|])
  {
    var r := t[q..q + |w|];
    var lw := LowerWord(r);
    forall k | 0 <= k < |w| ensures w[k] == lw[k] {
      assert r[k] == t[q + k];
    }
  }

  /** Each character of such a word is the lowercase form of a letter of the input. */
  lemma CleanWordLetters(t: string, q: int, w: string)
    requires WordAt(Clean(t), q, w) && !InEmoticon(t, q)
    ensures forall p :: q <= p < q + |w| ==> IsAlpha(t[p]) && w[p - q] == Lower(t[p])
  {
    var c := Clean(t);
    WordOutsideEmoticon(t, q, w);
    forall p | q <= p < q + |w| ensures IsAlpha(t[p]) && w[p - q] == Lower(t[p]) {
      assert w[p - q] == c[q..q + |w|][p - q];
      CleanLowerLetter(t, p);
    }
  }

  /** A lowercase letter of the cleaned text comes from a letter of the input outside every emoticon. */
  lemma CleanLowerLetter(t: string, p: int)
    requires 0 <= p < |t| && IsLowerLetter(Clean(t)[p])
    ensures !InEmoticon(t, p) && IsAlpha(t[p]) && Clean(t)[p] == Lower(t[p])
  {
    if InEmoticon(t, p) {
      var j, n := InEmoticonElim(t, p);
      assert false;
    }
  }

  /** A whitespace character of the cleaned text comes from a character of the input that is no letter. */
  lemma CleanSpace(t: string, p: int)
    requires 0 <= p < |t| && IsSpace(Clean(t)[p])
    ensures !IsAlpha(t[p])
  {
    if InEmoticon(t, p) {
      var j, n := InEmoticonElim(t, p);
      SymbolIsNotSpace(t[p]);
      assert false;
    }
  }

  /**
   * An emoticon is only recognised after a space: at the very start of a
   * tweet its symbols are punctuation and vanish, while the same emoticon
   * after one space is kept as a word.
   */
  lemma LeadingEmoticonDropped()
    ensures Tokenize(":)") == []
    ensures Tokenize(" :)") == [":)"]
  {
    assert !InEmoticon(":)", 0) && !InEmoticon(":)", 1);
    assert Clean(":)") == "  ";
    assert Split("  ") == [];
    var t := " :)";
    assert EmoticonOf(t, 0, 2);
    assert Clean(t) == " :)";
    assert WordEnd(t, 1) == 3;
    assert SplitFrom(t, 3) == [];
    assert SplitFrom(t, 1) == [t[1..3]] + SplitFrom(t, 3);
    assert t[1..3] == ":)";
    assert SplitFrom(t, 0) == SplitFrom(t, 1);
  }

  /**
   * An emoticon has one or two symbols: a single symbol after a space is
   * kept as a word, while three symbols are no emoticon and vanish as
   * punctuation.
   */
  lemma EmoticonLength()
    ensures Tokenize(" -") == ["-"]
    ensures Tokenize(" :))") == []
  {
    var t := " -";
    assert EmoticonOf(t, 0, 1);
    assert Clean(t) == " -";
    assert WordEnd(t, 1) == 2;
    assert SplitFrom(t, 1) == [t[1..2]] + SplitFrom(t, 2);
    assert t[1..2] == "-";
    assert SplitFrom(t, 0) == SplitFrom(t, 1);
    var u := " :))";
    assert !InEmoticon(u, 1) && !InEmoticon(u, 2) && !InEmoticon(u, 3);
    assert !InEmoticon(u, 0);
    assert Clean(u) == "    ";
    assert Split("    ") == [];
  }
}
