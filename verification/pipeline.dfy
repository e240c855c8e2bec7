/**
 * The preparation and learning steps of the script, as one method: the
 * training rows are split by label, each side becomes a corpus of words,
 * the stock words are removed from both, and the vocabulary of the
 * remaining corpus is collected without duplicates.
 */
module Pipeline {
  import opened Dataset
  import opened WordLists
  import opened Frequency
  import opened Corpus
  import opened Pruner

  /** The words of the positive (or negative) training tweets, before pruning. */
  function ClassWords(train: seq<Row>, positive: bool): seq<Word>
  {
    CorpusOf(TextsWithLabel(train, positive))
  }

  /** A stock word: among the fifty most frequent words of both classes. */
  predicate IsStockWord(train: seq<Row>, w: Word)
  {
    w in MostFrequent(ClassWords(train, true)) && w in MostFrequent(ClassWords(train, false))
  }

  /**
   * `mots_pos_tot`, `mots_neg_tot`, `n_corp` and `mots_corp` as the script
   * computes them from `train_df`.
   */
  method Preparation(trainDf: seq<Row>)
    returns (motsPosTot: seq<Word>, motsNegTot: seq<Word>, nCorp: nat, motsCorp: seq<Word>)
    ensures forall w :: multiset(motsPosTot)[w] ==
              if IsStockWord(trainDf, w) then 0 else multiset(ClassWords(trainDf, true))[w]
    ensures forall w :: multiset(motsNegTot)[w] ==
              if IsStockWord(trainDf, w) then 0 else multiset(ClassWords(trainDf, false))[w]
    ensures nCorp == |motsPosTot| + |motsNegTot|
    ensures motsCorp == Extend(Extend([], motsPosTot), motsNegTot)
    ensures NoDup(motsCorp)
    ensures forall w :: w in motsCorp <==> w in motsPosTot || w in motsNegTot
    ensures forall w :: w in motsCorp ==> !IsStockWord(trainDf, w)
  {
    var pos, neg := Separation(trainDf);
    motsPosTot := CreationListeDeMots(pos);
    motsNegTot := CreationListeDeMots(neg);
    motsPosTot, motsNegTot := SupprimeStockWords(motsPosTot, motsNegTot);
    nCorp := |motsPosTot| + |motsNegTot|;
    motsCorp := MotsDiff(motsPosTot, []);
    motsCorp := MotsDiff(motsNegTot, motsCorp);
  }
}
