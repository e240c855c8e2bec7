/**
 * `supprime_stock_words`: the words among the fifty most frequent of both
 * class corpora carry no information about the class and are removed from
 * both.
 */
module Pruner {
  import opened WordLists
  import opened Frequency

  /** The "stock words": the words of the positive top fifty that are also in the negative top fifty. */
  function StockWords(pos: seq<Word>, neg: seq<Word>): seq<Word>
  {
    Keep(MostFrequent(pos), MostFrequent(neg))
  }

  /**
   * `supprime_stock_words(l_mots_pos, l_mots_neg)`: both corpora, in their
   * order, without the words that are among the fifty most frequent of
   * each; every other word keeps all its occurrences.
   */
  method SupprimeStockWords(lMotsPos: seq<Word>, lMotsNeg: seq<Word>)
    returns (lMotsPosPropre: seq<Word>, lMotsNegPropre: seq<Word>)
    ensures lMotsPosPropre == Drop(lMotsPos, StockWords(lMotsPos, lMotsNeg))
    ensures lMotsNegPropre == Drop(lMotsNeg, StockWords(lMotsPos, lMotsNeg))
    ensures forall w ::
              multiset(lMotsPosPropre)[w] ==
              if w in MostFrequent(lMotsPos) && w in MostFrequent(lMotsNeg) then 0 else multiset(lMotsPos)[w]
    ensures forall w ::
              multiset(lMotsNegPropre)[w] ==
              if w in MostFrequent(lMotsPos) && w in MostFrequent(lMotsNeg) then 0 else multiset(lMotsNeg)[w]
    ensures |lMotsPosPropre| <= |lMotsPos| && |lMotsNegPropre| <= |lMotsNeg|
  {
    var tropOccu1 := MotsPlusOccurents(lMotsPos);
    var tropOccu2 := MotsPlusOccurents(lMotsNeg);

    var tropOccu := KeepWords(tropOccu1, tropOccu2);

    lMotsPosPropre := DropWords(lMotsPos, tropOccu);
    lMotsNegPropre := DropWords(lMotsNeg, tropOccu);

    forall w
      ensures multiset(lMotsPosPropre)[w] == if w in tropOccu then 0 else multiset(lMotsPos)[w]
      ensures multiset(lMotsNegPropre)[w] == if w in tropOccu then 0 else multiset(lMotsNeg)[w]
    {
      DropCount(lMotsPos, tropOccu, w);
      DropCount(lMotsNeg, tropOccu, w);
    }
  }
}
