# Tweet sentiment classifier: a verified model of its text pipeline

The system is a small naive-Bayes classifier for tweets labelled
"positive" or "negative". This project models the deterministic part of it,
which is everything before the probabilities are computed:

- splitting the labelled rows by class (`separation`) and into texts and
  labels (`lecture`);
- the tokenizer (`is_emoji`, `nettoyage`). It lowercases letters, keeps
  emoticons verbatim and treats every other character as a separator;
- building the per-class corpora (`creation_liste_de_mots`);
- the fifty most frequent words of a corpus (`mots_plus_occurents`);
- removing the "stock words" that are among the fifty most frequent words of
  both classes (`supprime_stock_words`);
- the duplicate-free vocabulary (`mots_diff`);
- selecting the class words of a tweet (`extraction_mots_tweet`);
- the accuracy percentage (`compare`).

Each loop of the program is a Dafny `method` with a `while` or `for` loop.
Its contract ties the result to a specification stated without loops:

- most methods are proved equal to a function defined by recursion on the
  input, such as `TextsWithLabel`, `CorpusOf`, `Keep`, `Drop` or `Extend`;
- `IsEmoji` is characterised by the predicate `EmoticonOf`;
- `Nettoyage` is characterised by the position-by-position text `Clean`;
- `Lecture` is characterised by one quantified clause per position;
- `CountWords` is characterised by the occurrence counts of a multiset.

Lemmas then state what those specifications guarantee.

Modules:

- `Text`: `isalpha`, `lower` and `split()`.
- `Tokenizer`: the emoticon rule and the tokenizer.
- `WordLists`: keeping or dropping the words of a list, and `mots_diff`.
- `Frequency`: counting and ranking.
- `Dataset`: rows and the two readers.
- `Corpus`: corpora and tweet word extraction.
- `Pruner`: stock-word removal.
- `Evaluation`: `compare`.
- `Pipeline`: the script's preparation and learning steps.

The tokenizer is specified position by position. `Clean(t)[k]` is:

- `t[k]` when `k` is one of the symbols of an emoticon;
- the lowercase letter when `t[k]` is a letter;
- a space otherwise.

`Tokenize(t)` is `split()` of that text. An emoticon, as the code recognises
it, is a space followed by one or two of the symbols `:;)(-=<3DPX/`, which
are in turn followed by a space or the end of the text.

The docstring of `is_emoji` (fornaciari_bouvier_projetBEPEIP.py:79-80)
describes an emoticon as 2 or 3 characters from `:;)(-=<3DPX/`, separated
from the rest of the text by spaces or by the end of the text. The code
differs from that description in two places, and the model follows the code:

- The code only recognises an emoticon after a space. A tweet that starts
  with `:)` loses it, while ` :)` keeps it. `Tokenizer.LeadingEmoticonDropped`
  proves this for these two tweets. For the same reason, tokenizing the
  space-joined output of a tokenization does not always give the same words
  back. The output of ` :)` is `:)`, which tokenizes to nothing.
- The code counts the leading space among the 2 or 3 characters. So an
  emoticon has one or two symbols. `Tokenizer.EmoticonLength` proves that
  ` -` yields the word `-` and that ` :))` yields no word.

A remark on the code itself: an emoticon is always followed by a space or by
the end of the text. So the copy loop of `nettoyage` (lines 135-137) never
copies any character beyond the symbols.

## Model

| member | source | states |
|---|---|---|
| `Dataset.Separation` | fornaciari_bouvier_projetBEPEIP.py:26-33 | The texts of the rows labelled exactly "positive" come out in `pos` in row order, and all the others in `neg`. Both sides together have as many texts as there are rows. |
| `Dataset.SeparationPartition` | fornaciari_bouvier_projetBEPEIP.py:28-32 | Every row goes to exactly one side: the two lists together are, as a multiset, the texts of all rows. |
| `Dataset.SeparationLabels` | fornaciari_bouvier_projetBEPEIP.py:29-32 | For each side, both directions: a text is on the positive side iff some row labelled exactly "positive" carries it, and on the negative side iff some row with any other label carries it. |
| `Dataset.Lecture` | fornaciari_bouvier_projetBEPEIP.py:60-70 | For the development set and for the test set, the text list and the label list have one entry per row, and row `i` is the pair (label `i`, text `i`). |
| `Text.Lower` | fornaciari_bouvier_projetBEPEIP.py:127-128 | A letter becomes the same letter of the alphabet in lower case, and a lowercase letter is unchanged. |
| `Text.SplitWords` | fornaciari_bouvier_projetBEPEIP.py:145 | `split()` yields exactly the maximal whitespace-free runs of the text, in both directions: every piece is such a run, and every such run is a piece. |
| `Tokenizer.IsEmoji` | fornaciari_bouvier_projetBEPEIP.py:92-99 | The result is true iff position `i` is a space followed by one or two emoticon symbols, which are followed by a space or the end of the text. |
| `Tokenizer.Nettoyage` | fornaciari_bouvier_projetBEPEIP.py:120-145 | The scan returns `Tokenize(texte)`: emoticon symbols are copied, letters are lowercased, everything else becomes a space, and the result is split. |
| `Tokenizer.TokenShape` | fornaciari_bouvier_projetBEPEIP.py:124-145 | Every word returned is non-empty and has no whitespace. It is either lowercase letters or the verbatim symbols of an emoticon of the input. `Tokenizer.LetterWordIsRun` says where a letter word comes from. |
| `Tokenizer.EmoticonKept` | fornaciari_bouvier_projetBEPEIP.py:131-137 | Every emoticon of the input is returned as a word, verbatim. |
| `Tokenizer.LetterRunKept` | fornaciari_bouvier_projetBEPEIP.py:126-128 | Every maximal run of letters that is not part of an emoticon is returned, lowercased, as one word. |
| `Tokenizer.LetterWordIsRun` | fornaciari_bouvier_projetBEPEIP.py:124-145 | The converse of `LetterRunKept`. Every word returned that is not an emoticon of the input is a maximal run of input letters, outside every emoticon, lowercased. So the words are exactly the lowercased letter runs and the emoticons. |
| `Tokenizer.LeadingEmoticonDropped` | fornaciari_bouvier_projetBEPEIP.py:92-99 | An example: the tweet `:)` yields no word, while the tweet ` :)` yields the word `:)`. The general rule is the ensures of `Tokenizer.IsEmoji` together with `Tokenizer.TokenShape`. |
| `Tokenizer.EmoticonLength` | fornaciari_bouvier_projetBEPEIP.py:94-97 | An example: the tweet ` -` yields the word `-`, and the tweet ` :))` yields no word. |
| `Corpus.CreationListeDeMots` | fornaciari_bouvier_projetBEPEIP.py:164-169 | The corpus is the tokenizer's words of each tweet, concatenated in tweet order. |
| `Corpus.CorpusAppend` | fornaciari_bouvier_projetBEPEIP.py:164-169 | The corpus of two lists of tweets is the first one's corpus followed by the second one's. |
| `Corpus.CorpusWords` | fornaciari_bouvier_projetBEPEIP.py:164-169 | A word is in the corpus iff it is a word of one of the tweets. |
| `Frequency.CountWords` | fornaciari_bouvier_projetBEPEIP.py:188-194 | The dictionary's keys are exactly the words of the list, each mapped to its number of occurrences. Its key order is the order of first occurrence. |
| `Frequency.SortByCount` | fornaciari_bouvier_projetBEPEIP.py:197 | Sorting is a permutation of the keys. |
| `Frequency.InsertRanked` | fornaciari_bouvier_projetBEPEIP.py:197 | Inserting a word after every word with a larger count and before every word with an equal or smaller one keeps a ranked list ranked, provided the word occurs first before all of them. |
| `Frequency.SortRanked` | fornaciari_bouvier_projetBEPEIP.py:197 | Keys in first-occurrence order, once sorted, are ranked by count, largest first, and ties keep their first-occurrence order (a stable sort). |
| `Frequency.SortedLength` | fornaciari_bouvier_projetBEPEIP.py:188-197 | The sorted dictionary has one entry per distinct word of the corpus. |
| `Frequency.SortedWords` | fornaciari_bouvier_projetBEPEIP.py:188-197 | The sorted dictionary holds each distinct word of the corpus once, and it is ranked. |
| `Frequency.MostFrequentSpec` | fornaciari_bouvier_projetBEPEIP.py:197-198 | The result holds `min(50, number of distinct words)` words, with no duplicates, all from the corpus. They are ranked, and every word left out comes after every word kept. |
| `Frequency.MotsPlusOccurents` | fornaciari_bouvier_projetBEPEIP.py:188-200 | Counting, sorting and slicing return `MostFrequent(words)`. |
| `WordLists.Keep` | fornaciari_bouvier_projetBEPEIP.py:229-232 | The kept words are exactly those of the list that are also in the other list, and there are no more of them than in the list. |
| `WordLists.Drop` | fornaciari_bouvier_projetBEPEIP.py:235-243 | The remaining words are exactly those of the list that are not banned. |
| `WordLists.KeepWords` | fornaciari_bouvier_projetBEPEIP.py:229-232 | The selection loop returns `Keep(s, allowed)`: the words of `s` found in `allowed`, in order. |
| `WordLists.DropWords` | fornaciari_bouvier_projetBEPEIP.py:237-243 | The removal loop returns `Drop(s, banned)`: the words of `s` not found in `banned`, in order. |
| `WordLists.KeepCount` | fornaciari_bouvier_projetBEPEIP.py:347-350 | Keeping preserves every occurrence of an allowed word and removes every other word. |
| `WordLists.DropCount` | fornaciari_bouvier_projetBEPEIP.py:237-243 | Dropping removes every occurrence of a banned word and preserves every occurrence of the others. |
| `WordLists.Extend` | fornaciari_bouvier_projetBEPEIP.py:282-285 | The accumulator is a prefix of the result, and the result's words are those of the accumulator and of the list. |
| `WordLists.ExtendNoDup` | fornaciari_bouvier_projetBEPEIP.py:282-285 | No added word was already in the accumulator, and a duplicate-free accumulator stays duplicate-free. |
| `WordLists.ExtendOrder` | fornaciari_bouvier_projetBEPEIP.py:282-285 | The added words come from the list, in the order of their first occurrence. |
| `WordLists.MotsDiff` | fornaciari_bouvier_projetBEPEIP.py:282-285 | The loop returns `Extend(acc, words)`, with no duplicates when `acc` has none. |
| `Pruner.SupprimeStockWords` | fornaciari_bouvier_projetBEPEIP.py:223-245 | Both corpora keep their order and lose exactly the words in both top-fifty lists. Every other word keeps all its occurrences. |
| `Pipeline.Preparation` | fornaciari_bouvier_projetBEPEIP.py:250-298 | The pruned class corpora hold every non-stock word of each class with all its occurrences, and `n_corp` is their total length. `mots_corp` is their vocabulary, without duplicates and in first-occurrence order. It contains no stock word. |
| `Corpus.ExtractionMotsTweet` | fornaciari_bouvier_projetBEPEIP.py:343-352 | The result is the tweet's words that are in the class list, in tweet order, with every occurrence kept. |
| `Evaluation.MatchesBounds` | fornaciari_bouvier_projetBEPEIP.py:427-430 | At most `n` of the first `n` positions match, and all of them do iff the two lists agree on them. |
| `Evaluation.Compare` | fornaciari_bouvier_projetBEPEIP.py:426-432 | The results are: `IndexError` when there are fewer predictions than labels, `ZeroDivisionError` when there are no labels, otherwise 100 times the share of matching positions. That share is in [0, 100] and is 100 iff the predictions start with the labels. |

## Left out

- Reading the three CSV files with pandas (lines 1-5) is input: the rows
  are parameters of type `Row`. Cells that are not strings are not modelled.
- `calcul_proba` (lines 355-406) and the class priors `p_pos`, `p_neg`
  (lines 290-291) compute floating-point products and quotients. They are
  not modelled, and neither is the prediction built from them.
- The occurrence lists inside the string literal at lines 299-320 and the
  commented-out `main` after line 440 are not executed by the program, so
  they are not modelled.
- Text.Lower: `str.isalpha` and `str.lower` are modelled on ASCII letters
  only, because other Unicode letters, and lowercasings that change the
  length, need Unicode tables.
- WordLists.MotsDiff: the source appends to `l_propre` in place, and its
  default value is one list shared by every call. The model takes the
  accumulator as a parameter and returns the extended list. The script
  passes the default only once, so the sharing does not change its results.
- Evaluation.Compare: the percentage is an exact real number, not a
  rounded double.
- Pipeline.Preparation: the call to `lecture` at line 253 is modelled by
  `Dataset.Lecture` on its own, not inside the pipeline.
