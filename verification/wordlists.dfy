/**
 * Word lists and the three list operations of the classifier built from
 * `append` loops: keeping the words found in a list, dropping the words
 * found in a list, and `mots_diff`, which appends unseen words to an
 * accumulator.
 */
module WordLists {

  /** A token of a tweet. */
  type Word = string

  /** No word occurs twice. */
  predicate NoDup(s: seq<Word>)
  {
    forall i, j :: 0 <= i < j < |s| ==> s[i] != s[j]
  }

  /** A list without duplicates has as many words as it has distinct words. */
  lemma {:induction false} NoDupCard(s: seq<Word>)
    requires NoDup(s)
    ensures |(set x | x in s)| == |s|
  {
    if s != [] {
      var init := s[..|s| - 1];
      NoDupCard(init);
      assert (set x | x in s) == (set x | x in init) + {s[|s| - 1]};
    }
  }

  /** The index of the first occurrence of `x` in `s`. */
  function FirstIndex(s: seq<Word>, x: Word): (i: nat)
    requires x in s
    ensures i < |s| && s[i] == x && x !in s[..i]
  {
    if s[0] == x then 0 else 1 + FirstIndex(s[1..], x)
  }

  /** The words of `s` that are in `allowed`, in their order in `s`. */
  function Keep(s: seq<Word>, allowed: seq<Word>): (r: seq<Word>)
    ensures |r| <= |s|
    ensures forall x :: x in r <==> x in s && x in allowed
  {
    if s == [] then []
    else
      var last := s[|s| - 1];
      Keep(s[..|s| - 1], allowed) + (if last in allowed then [last] else [])
  }

  /** The words of `s` that are not in `banned`, in their order in `s`. */
  function Drop(s: seq<Word>, banned: seq<Word>): (r: seq<Word>)
    ensures |r| <= |s|
    ensures forall x :: x in r <==> x in s && x !in banned
  {
    if s == [] then []
    else
      var last := s[|s| - 1];
      Drop(s[..|s| - 1], banned) + (if last !in banned then [last] else [])
  }

  /**
   * The filtering loop that appends, in order, each word of `s` found in
   * `allowed` (the stock-word selection of `supprime_stock_words` and the
   * selection loop of `extraction_mots_tweet`).
   */
  method KeepWords(s: seq<Word>, allowed: seq<Word>) returns (r: seq<Word>)
    ensures r == Keep(s, allowed)
  {
    r := [];
    for i := 0 to |s|
      invariant r == Keep(s[..i], allowed)
    {
      assert s[..i + 1][..i] == s[..i];
      if s[i] in allowed {
        r := r + [s[i]];
      }
    }
    assert s[..|s|] == s;
  }

  /**
   * The filtering loop that appends, in order, each word of `s` not found
   * in `banned` (the two removal loops of `supprime_stock_words`).
   */
  method DropWords(s: seq<Word>, banned: seq<Word>) returns (r: seq<Word>)
    ensures r == Drop(s, banned)
  {
    r := [];
    for i := 0 to |s|
      invariant r == Drop(s[..i], banned)
    {
      assert s[..i + 1][..i] == s[..i];
      if s[i] !in banned {
        r := r + [s[i]];
      }
    }
    assert s[..|s|] == s;
  }

  /** `Keep` keeps every occurrence of an allowed word and nothing else. */
  lemma {:induction false} KeepCount(s: seq<Word>, allowed: seq<Word>, x: Word)
    ensures multiset(Keep(s, allowed))[x] == if x in allowed then multiset(s)[x] else 0
  {
    if s != [] {
      var init := s[..|s| - 1];
      assert s == init + [s[|s| - 1]];
      KeepCount(init, allowed, x);
    }
  }

  /** `Drop` removes every occurrence of a banned word and keeps every other one. */
  lemma {:induction false} DropCount(s: seq<Word>, banned: seq<Word>, x: Word)
    ensures multiset(Drop(s, banned))[x] == if x in banned then 0 else multiset(s)[x]
  {
    if s != [] {
      var init := s[..|s| - 1];
      assert s == init + [s[|s| - 1]];
      DropCount(init, banned, x);
    }
  }

  /**
   * `acc` followed by the words of `s` that are not already present, each
   * once, in the order of their first occurrence in `s`.
   */
  function Extend(acc: seq<Word>, s: seq<Word>): (r: seq<Word>)
    ensures |acc| <= |r| && r[..|acc|] == acc
    ensures forall x :: x in r <==> x in acc || x in s
  {
    if s == [] then acc
    else
      var p := Extend(acc, s[..|s| - 1]);
      var last := s[|s| - 1];
      if last in p then p else p + [last]
  }

  /** `Extend` adds no duplicate, and what it adds was not in `acc`. */
  lemma {:induction false} ExtendNoDup(acc: seq<Word>, s: seq<Word>)
    ensures forall k :: |acc| <= k < |Extend(acc, s)| ==> Extend(acc, s)[k] !in acc
    ensures NoDup(acc) ==> NoDup(Extend(acc, s))
  {
    if s != [] {
      ExtendNoDup(acc, s[..|s| - 1]);
    }
  }

  /** The words `Extend` adds come in the order of their first occurrence in `s`. */
  lemma {:induction false} ExtendOrder(acc: seq<Word>, s: seq<Word>)
    ensures forall k :: |acc| <= k < |Extend(acc, s)| ==> Extend(acc, s)[k] in s
    ensures forall i, j :: |acc| <= i < j < |Extend(acc, s)| ==>
      FirstIndex(s, Extend(acc, s)[i]) < FirstIndex(s, Extend(acc, s)[j])
  {
    if s != [] {
      var init := s[..|s| - 1];
      var last := s[|s| - 1];
      var p := Extend(acc, init);
      var r := Extend(acc, s);
      ExtendOrder(acc, init);
      ExtendNoDup(acc, init);
      assert s == init + [last];
      forall x | x in init ensures FirstIndex(s, x) == FirstIndex(init, x) {
        FirstIndexPrefix(init, [last], x);
      }
      if last !in p {
        assert last !in init;
        assert FirstIndex(s, last) == |s| - 1;
        forall i | |acc| <= i < |p| ensures FirstIndex(s, r[i]) < FirstIndex(s, last) {
          assert r[i] == p[i];
        }
      }
    }
  }

  lemma {:induction false} FirstIndexPrefix(a: seq<Word>, b: seq<Word>, x: Word)
    requires x in a
    ensures FirstIndex(a + b, x) == FirstIndex(a, x)
  {
    if a[0] != x {
      assert (a + b)[1..] == a[1..] + b;
      FirstIndexPrefix(a[1..], b, x);
    }
  }

  /**
   * `mots_diff(l_mots, l_propre)`: appends to the accumulator every word of
   * `words` that it does not hold yet. The source mutates `l_propre` in
   * place and returns it; here the accumulator is passed in and the extended
   * list is returned.
   */
  method MotsDiff(words: seq<Word>, acc: seq<Word>) returns (r: seq<Word>)
    ensures r == Extend(acc, words)
    ensures NoDup(acc) ==> NoDup(r)
  {
    r := acc;
    for i := 0 to |words|
      invariant r == Extend(acc, words[..i])
    {
      assert words[..i + 1][..i] == words[..i];
      if words[i] !in r {
        r := r + [words[i]];
      }
    }
    assert words[..|words|] == words;
    ExtendNoDup(acc, words);
  }
}
