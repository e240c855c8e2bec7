/**
 * `creation_liste_de_mots`, which concatenates the words of a list of
 * tweets, and `extraction_mots_tweet`, which keeps the words of one tweet
 * that belong to a class's word list.
 */
module Corpus {
  import opened Tokenizer
  import opened WordLists

  /** The words of every tweet of `tweets`, tweet after tweet. */
  function CorpusOf(tweets: seq<string>): seq<Word>
  {
    if tweets == [] then []
    else CorpusOf(tweets[..|tweets| - 1]) + Tokenize(tweets[|tweets| - 1])
  }

  /** The corpus of two lists of tweets is the corpus of the first followed by that of the second. */
  lemma {:induction false} CorpusAppend(a: seq<string>, b: seq<string>)
    ensures CorpusOf(a + b) == CorpusOf(a) + CorpusOf(b)
  {
    if b == [] {
      assert a + b == a;
    } else {
      var init := b[..|b| - 1];
      assert (a + b)[..|a + b| - 1] == a + init;
      assert (a + b)[|a + b| - 1] == b[|b| - 1];
      CorpusAppend(a, init);
    }
  }

  /** A word is in the corpus exactly when it is a word of one of the tweets. */
  lemma {:induction false} CorpusWords(tweets: seq<string>, w: Word)
    ensures w in CorpusOf(tweets) <==> exists i :: 0 <= i < |tweets| && w in Tokenize(tweets[i])
  {
    if tweets != [] {
      var init := tweets[..|tweets| - 1];
      CorpusWords(init, w);
      assert forall i :: 0 <= i < |init| ==> init[i] == tweets[i];
    }
  }

  /**
   * `creation_liste_de_mots(l_tweets)`: the words `nettoyage` finds in
   * each tweet, appended tweet after tweet.
   */
  method CreationListeDeMots(tweets: seq<string>) returns (corpus: seq<Word>)
    ensures corpus == CorpusOf(tweets)
  {
    corpus := [];
    for i := 0 to |tweets|
      invariant corpus == CorpusOf(tweets[..i])
    {
      assert tweets[..i + 1][..i] == tweets[..i];
      var mots := Nettoyage(tweets[i]);
      corpus := corpus + mots;
    }
    assert tweets[..|tweets|] == tweets;
  }

  /**
   * `extraction_mots_tweet(tweet, l_mots)`: the words of the tweet that are
   * in `lMots`, in tweet order, each occurrence kept.
   */
  method ExtractionMotsTweet(tweet: string, lMots: seq<Word>) returns (motsTweetPropre: seq<Word>)
    ensures motsTweetPropre == Keep(Tokenize(tweet), lMots)
    ensures forall w ::
              multiset(motsTweetPropre)[w] == if w in lMots then multiset(Tokenize(tweet))[w] else 0
  {
    var motsTweet := Nettoyage(tweet);
    motsTweetPropre := KeepWords(motsTweet, lMots);
    forall w
      ensures multiset(motsTweetPropre)[w] == if w in lMots then multiset(motsTweet)[w] else 0
    {
      KeepCount(motsTweet, lMots, w);
    }
  }
}
