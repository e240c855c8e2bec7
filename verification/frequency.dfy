/**
 * `mots_plus_occurents`: counts the words of a corpus in a dictionary
 * (whose keys keep their order of first insertion), sorts the entries by
 * count, largest first, with Python's stable `sorted`, and keeps the first
 * fifty words.
 */
module Frequency {
  import opened WordLists

  /** How many of the most frequent words are kept. */
  const TopSize: nat := 50

  function Min(a: nat, b: nat): nat
  {
    if a <= b then a else b
  }

  /** The dictionary `dico` once every word has been counted. */
  function Occurrences(words: seq<Word>): (m: map<Word, nat>)
    ensures forall w :: w in m <==> w in words
    ensures forall w :: w in m ==> m[w] == multiset(words)[w]
  {
    map w | w in words :: multiset(words)[w]
  }

  /**
   * The counting loop of `mots_plus_occurents`: a new word enters the
   * dictionary with count 1, a known one has its count raised by 1. The
   * dictionary's key order, which Python keeps, is `order`.
   */
  method CountWords(words: seq<Word>) returns (dico: map<Word, nat>, order: seq<Word>)
    ensures forall w :: w in dico <==> w in words
    ensures forall w :: w in dico ==> dico[w] == multiset(words)[w]
    ensures order == Extend([], words)
  {
    dico := map[];
    order := [];
    for i := 0 to |words|
      invariant forall w :: w in dico <==> w in words[..i]
      invariant forall w :: w in dico ==> dico[w] == multiset(words[..i])[w]
      invariant order == Extend([], words[..i])
    {
      var w := words[i];
      assert words[..i + 1] == words[..i] + [w];
      if w !in dico {
        dico := dico[w := 1];
        order := order + [w];
      } else {
        dico := dico[w := dico[w] + 1];
      }
    }
    assert words[..|words|] == words;
  }

  /**
   * Inserts `x` before the first word whose count is not larger than its
   * own, so that `x` follows every word with a larger count and precedes
   * every word with an equal one.
   */
  function Insert(x: Word, s: seq<Word>, count: map<Word, nat>): (r: seq<Word>)
    requires x in count && forall y :: y in s ==> y in count
    ensures multiset(r) == multiset(s) + multiset{x}
    ensures forall y :: y in r <==> y == x || y in s
  {
    if s == [] || count[s[0]] <= count[x] then [x] + s
    else
      assert s == [s[0]] + s[1..];
      [s[0]] + Insert(x, s[1..], count)
  }

  /**
   * `sorted(keys, key=count, reverse=True)`: largest count first, and words
   * of equal count in their order in `keys`, because the sort is stable.
   */
  function SortByCount(keys: seq<Word>, count: map<Word, nat>): (r: seq<Word>)
    requires forall y :: y in keys ==> y in count
    ensures multiset(r) == multiset(keys)
    ensures forall y :: y in r <==> y in keys
  {
    if keys == [] then []
    else
      assert keys == [keys[0]] + keys[1..];
      Insert(keys[0], SortByCount(keys[1..], count), count)
  }

  /** The fifty most frequent words of `words`, as `mots_plus_occurents` returns them. */
  function MostFrequent(words: seq<Word>): seq<Word>
  {
    var sorted := SortByCount(Extend([], words), Occurrences(words));
    sorted[..Min(TopSize, |sorted|)]
  }

  /**
   * `a` comes before `b` in the sorted word list of `words`: it occurs more
   * often, or as often and for the first time earlier.
   */
  predicate Precedes(words: seq<Word>, a: Word, b: Word)
  {
    && a in words
    && b in words
    && (|| multiset(words)[a] > multiset(words)[b]
        || (multiset(words)[a] == multiset(words)[b] && FirstIndex(words, a) < FirstIndex(words, b)))
  }

  /** Every word of `s` comes before every later one. */
  predicate Ranked(words: seq<Word>, s: seq<Word>)
  {
    forall i, j :: 0 <= i < j < |s| ==> Precedes(words, s[i], s[j])
  }

  /**
   * Inserting a word whose first occurrence precedes those of a ranked
   * list keeps the list ranked.
   */
  lemma {:induction false} InsertRanked(words: seq<Word>, x: Word, s: seq<Word>)
    requires x in words && forall y :: y in s ==> y in words
    requires Ranked(words, s)
    requires forall y :: y in s ==> FirstIndex(words, x) < FirstIndex(words, y)
    ensures Ranked(words, Insert(x, s, Occurrences(words)))
  {
    var count := Occurrences(words);
    var r := Insert(x, s, count);
    if s == [] || count[s[0]] <= count[x] {
      forall j | 0 < j < |r| ensures Precedes(words, x, r[j]) {
        assert r[j] == s[j - 1];
        if j > 1 {
          assert Precedes(words, s[0], s[j - 1]);
        }
      }
    } else {
      var tail := s[1..];
      assert Ranked(words, tail) by {
        forall i, j | 0 <= i < j < |tail| ensures Precedes(words, tail[i], tail[j]) {
          assert tail[i] == s[i + 1] && tail[j] == s[j + 1];
        }
      }
      InsertRanked(words, x, tail);
      var rest := Insert(x, tail, count);
      assert r == [s[0]] + rest;
      forall j | 0 <= j < |rest| ensures Precedes(words, s[0], rest[j]) {
        assert rest[j] in multiset(rest);
        if rest[j] != x {
          assert rest[j] in multiset(tail);
          var k :| 0 <= k < |tail| && tail[k] == rest[j];
          assert Precedes(words, s[0], s[k + 1]);
        }
      }
    }
  }

  /**
   * Keys listed in the order of their first occurrence come out of the sort
   * ranked: larger counts first, and equal counts in key order.
   */
  lemma {:induction false} SortRanked(words: seq<Word>, keys: seq<Word>)
    requires forall y :: y in keys ==> y in words
    requires forall i, j :: 0 <= i < j < |keys| ==> FirstIndex(words, keys[i]) < FirstIndex(words, keys[j])
    ensures Ranked(words, SortByCount(keys, Occurrences(words)))
  {
    if keys != [] {
      var tail := keys[1..];
      forall i, j | 0 <= i < j < |tail| ensures FirstIndex(words, tail[i]) < FirstIndex(words, tail[j]) {
        assert tail[i] == keys[i + 1] && tail[j] == keys[j + 1];
      }
      SortRanked(words, tail);
      var sorted := SortByCount(tail, Occurrences(words));
      forall y | y in sorted ensures FirstIndex(words, keys[0]) < FirstIndex(words, y) {
        assert y in multiset(tail);
        var k :| 0 <= k < |tail| && tail[k] == y;
        assert keys[k + 1] == y;
      }
      InsertRanked(words, keys[0], sorted);
    }
  }

  /** The sorted word list holds as many words as the corpus has distinct words. */
  lemma SortedLength(words: seq<Word>)
    ensures |SortByCount(Extend([], words), Occurrences(words))| == |(set w | w in words)|
  {
    var keys := Extend([], words);
    var sorted := SortByCount(keys, Occurrences(words));
    assert |sorted| == |keys| by {
      assert |multiset(sorted)| == |multiset(keys)|;
    }
    ExtendNoDup([], words);
    NoDupCard(keys);
    assert (set w | w in keys) == (set w | w in words);
  }

  /** The whole sorted word list: every distinct word once, ranked. */
  lemma SortedWords(words: seq<Word>)
    ensures |SortByCount(Extend([], words), Occurrences(words))| == |(set w | w in words)|
    ensures forall w :: w in SortByCount(Extend([], words), Occurrences(words)) <==> w in words
    ensures Ranked(words, SortByCount(Extend([], words), Occurrences(words)))
  {
    SortedLength(words);
    ExtendOrder([], words);
    SortRanked(words, Extend([], words));
  }

  /**
   * What `mots_plus_occurents` returns: at most fifty distinct words of the
   * corpus (all of them when there are fewer), each before every word that
   * occurs less often or as often but first later; and every word left out
   * comes after every word kept.
   */
  lemma MostFrequentSpec(words: seq<Word>)
    ensures |MostFrequent(words)| == Min(TopSize, |(set w | w in words)|)
    ensures NoDup(MostFrequent(words))
    ensures forall w :: w in MostFrequent(words) ==> w in words
    ensures Ranked(words, MostFrequent(words))
    ensures forall v, w :: v in MostFrequent(words) && w in words && w !in MostFrequent(words) ==>
      Precedes(words, v, w)
  {
    var sorted := SortByCount(Extend([], words), Occurrences(words));
    var r := MostFrequent(words);
    SortedWords(words);
    assert r == sorted[..|r|];
    assert Ranked(words, r) by {
      forall i, j | 0 <= i < j < |r| ensures Precedes(words, r[i], r[j]) {
        assert r[i] == sorted[i] && r[j] == sorted[j];
      }
    }
    forall v, w | v in r && w in words && w !in r ensures Precedes(words, v, w) {
      var m :| 0 <= m < |sorted| && sorted[m] == w;
      var i :| 0 <= i < |r| && r[i] == v;
      assert sorted[i] == v;
    }
  }

  /**
   * `mots_plus_occurents(l_mots)`: counts the words, sorts the entries by
   * decreasing count (stably) and keeps the first fifty words.
   */
  method MotsPlusOccurents(words: seq<Word>) returns (top: seq<Word>)
    ensures top == MostFrequent(words)
  {
    var dico, order := CountWords(words);
    assert dico == Occurrences(words);
    var dicoTrie := SortByCount(order, dico);
    top := dicoTrie[..Min(TopSize, |dicoTrie|)];
  }
}
