# TF-IDF extractive summarizer: a verified model

This project models the scoring-and-selection engine of an extractive text
summarizer. A document that has already been split into sentences is
summarized in these steps:

1. Each sentence is split on ASCII whitespace. Pieces whose lower-case
   form is in a fixed table of 127 English stopwords are dropped.
2. Each sentence's token list gets term frequencies (count / length) and
   inverse document frequencies. The IDF is log10(number of token lists /
   total occurrences of the word over all lists).
3. A sentence scores the sum of tf·idf over its token occurrences. Scores
   go into a map keyed by sentence text.
4. The sentences are sorted stably by descending score. The summary
   length k is ⌊r·n⌋ when r·n is positive and 0 otherwise. The first k
   ranked sentences are joined with a single space; a k above the number
   of sentences n is the slice panic, reported as an error.

`tokenizer.dfy` (module `Tokenizer`) holds the stopword table, the
whitespace split, the stopword filter and the frequency count.
`summarizer.dfy` (module `Summarizer`) holds TF, IDF, scoring, the stable
sort and the summary selection.

The loops of `compute` and its helpers are methods with loop invariants, each proved
against a specification function: `GetFreqMap` against `FreqMap`,
`ComputeTermFrequency` against `TermFrequency`, `ComputeInverseDocFrequency`
against `InverseDocFrequency`, `SumTfIdf` against `OccurrenceSum`, and
`ScoreSentences` against `ScoreTable`. The in-place sort is an insertion
sort on an `array<string>`. It carries a ghost permutation that witnesses
stability.

Scores are exact reals. The base-10 logarithm is a parameter
`log10: real -> real`, so every property holds for any logarithm.

## Model

| member | source | states |
|---|---|---|
| Tokenizer.Keywords | src/tokenizer.rs:5-14 | the 127 stopwords of the source table, in the same order (checked through StopwordExamples) |
| Tokenizer.IsStopword | src/tokenizer.rs:33 | a piece is a stopword when its lower-case form is in the table |
| Tokenizer.SplitAsciiWhitespace | src/tokenizer.rs:30 | every piece of the split is non-empty and free of ASCII whitespace |
| Tokenizer.SplitJoin | src/tokenizer.rs:30 | splitting whitespace-free words joined by single spaces gives back exactly those words |
| Tokenizer.WordLengthStopsAtWhitespace | src/tokenizer.rs:30 | a non-whitespace run ends at the first whitespace character, whatever follows it |
| Tokenizer.SplitAtWhitespace | src/tokenizer.rs:30 | every whitespace character (space, tab, newline, form feed, carriage return) separates: the split of a, c, b is the split of a followed by the split of b; with SplitJoin of one word this makes the pieces exactly the maximal non-whitespace runs |
| Tokenizer.SplitKeepsEveryOtherCharacter | src/tokenizer.rs:30 | the pieces, concatenated, are the sentence with its whitespace removed: the split loses nothing but whitespace |
| Tokenizer.WhitespaceOnlySplitsToNothing | src/tokenizer.rs:30 | a whitespace-only (or empty) sentence splits into no pieces |
| Tokenizer.ToLowercase | src/tokenizer.rs:33 | the fold keeps the length and lower-cases each ASCII capital, leaving every other character unchanged |
| Tokenizer.KeepNonStopwords | src/tokenizer.rs:31-34 | the pieces that are not stopwords, in their order (properties: KeepNonStopwordsIsSubsequence, KeepNonStopwordsCounts) |
| Tokenizer.KeepNonStopwordsIsSubsequence | src/tokenizer.rs:31-34 | the filter's output is a subsequence of its input (original order kept) |
| Tokenizer.KeepNonStopwordsCounts | src/tokenizer.rs:31-34 | a stopword occurs 0 times in the output; any other piece occurs exactly as often as in the input |
| Tokenizer.SentenceToTokens | src/tokenizer.rs:29-36 | the whitespace split with the stopwords removed, in order and casing (properties: SentenceToTokensFilters, AllStopwordsNoTokens, StopwordOnlySentence) |
| Tokenizer.SentenceToTokensFilters | src/tokenizer.rs:29-36 | every token is non-empty, whitespace-free and not a stopword; tokens are a subsequence of the split; each non-stopword piece keeps its multiplicity and casing |
| Tokenizer.AllStopwordsNoTokens | src/tokenizer.rs:29-36 | a sentence whose pieces are all stopwords (or that has none) yields an empty token list |
| Tokenizer.StopwordOnlySentence | src/tokenizer.rs:29-36 | stopwords joined by spaces yield an empty token list |
| Tokenizer.StopwordExamples | src/tokenizer.rs:5-14 | "It", "is" and "THE" are stopwords: the table holds "it", "is" and "the", and the test lower-cases first |
| Tokenizer.GetFreqMap | src/tokenizer.rs:38-53 | keys are exactly the distinct words; each value is that word's number of occurrences, hence ≥ 1 |
| Tokenizer.FreqMapAppend | src/tokenizer.rs:40-50 | one more word increments its own count (from 0 when new) and changes no other entry |
| Tokenizer.FreqMapSum | src/tokenizer.rs:38-53 | the frequency values add up to the number of words |
| Summarizer.ComputeTermFrequency | src/summarizer.rs:115-126 | keys are exactly the distinct tokens; each value is count / number of tokens |
| Summarizer.TermFrequencyBounds | src/summarizer.rs:118-123 | every TF value lies in (0, 1] |
| Summarizer.TermFrequencySumsToOne | src/summarizer.rs:118-123 | the TF values of a non-empty token list sum to 1 |
| Summarizer.ScaledSum | src/summarizer.rs:120-123 | dividing every count by the same positive length divides their sum by it |
| Summarizer.ComputeInverseDocFrequency | src/summarizer.rs:128-145 | keys are the sentence's distinct words; each value is log10(number of lists / total occurrences over all lists) |
| Summarizer.OccurrencesVersusDocumentFrequency | src/summarizer.rs:136-141 | the total-occurrence denominator is never below the number of lists containing the word, and equals it iff no list repeats the word |
| Summarizer.OccurrencesAtLeast | src/summarizer.rs:137-140 | the total count of a word is at least its count in any one list |
| Summarizer.TokensInCorpus | src/summarizer.rs:34-36 | each word of a corpus list occurs at least once in the corpus, so the IDF ratio never divides by zero |
| Summarizer.SentenceInCorpus | src/summarizer.rs:28-36 | the same, for a sentence of the document against the token lists of all its sentences |
| Summarizer.SumTfIdf | src/summarizer.rs:37-41 | the accumulated sum is tf·idf summed over token occurrences, repeats included; an empty token list sums to 0 |
| Summarizer.OccurrenceSumByWord | src/summarizer.rs:37-41 | the per-occurrence sum equals the per-word sum with each word's weight taken count-many times |
| Summarizer.EmptySentenceScoresZero | src/summarizer.rs:37-41 | a sentence without tokens scores 0 |
| Summarizer.ScoreList | src/summarizer.rs:34-41 | one loop iteration's TF, IDF and sum yield the i-th list's score |
| Summarizer.TokenizeSentences | src/summarizer.rs:27-30 | the i-th token list is the i-th sentence's tokens, for every i and nothing more |
| Summarizer.ScoreSentences | src/summarizer.rs:32-44 | the score map is the sequence of insertions of list i's score under sentence i's text |
| Summarizer.ScoreTable | src/summarizer.rs:32-44 | after n insertions the keys are exactly the texts of the first n sentences |
| Summarizer.ScoreTableLastInsertion | src/summarizer.rs:42 | last insertion wins: a text's entry is the score of the list at the last position holding that text |
| Summarizer.CorpusHasSameTextSameTokens | src/summarizer.rs:28-30 | sentences with equal text get equal token lists |
| Summarizer.ScoreTableEntry | src/summarizer.rs:42 | the map entry of every inserted sentence is its own list's score, whichever equal-text insertion won |
| Summarizer.ListScoreIsSentenceScore | src/summarizer.rs:28-41 | a list's score depends only on its sentence's text |
| Summarizer.SwapKeepsMultiset | src/summarizer.rs:47-48 | an adjacent swap keeps the same elements |
| Summarizer.SwapKeepsPermutation | src/summarizer.rs:47-48 | an adjacent swap of a bijection is a bijection |
| Summarizer.InsertNext | src/summarizer.rs:47-48 | one insertion step extends the stably ranked prefix by one element, keeping the elements |
| Summarizer.SortByScoreDescending | src/summarizer.rs:47-48 | the array becomes a permutation of its old contents in non-increasing score order, equal scores in original relative order |
| Summarizer.StableRankingUnique | src/summarizer.rs:47-48 | the stable descending ranking is unique, so any stable sort gives this same order |
| Summarizer.StableRankingOrders | src/summarizer.rs:47-48 | every ranked sentence is an input sentence with a score, and scores never increase along the ranking |
| Summarizer.RankedByListScore | src/summarizer.rs:42-48 | ranking by the text-keyed map orders sentences by their own lists' scores |
| Summarizer.RankedBySentenceScore | src/summarizer.rs:27-48 | the ranked sentences are sentences of the document, in non-increasing order of each sentence's own TF-IDF score |
| Summarizer.Rank | src/summarizer.rs:27-48 | tokenizing, scoring and sorting yields a stable descending ranking of the document's sentences by the score map |
| Summarizer.FractionOfCount | src/summarizer.rs:52 | a fraction in [0, 1] of n lies in [0, n], and the fraction 1 gives n |
| Summarizer.SummaryLength | src/summarizer.rs:52 | k is 0 for a non-positive product; otherwise k ≤ r·n < k + 1; k ≤ n when 0 ≤ r ≤ 1; k = n when r = 1 |
| Tokenizer.Join | src/summarizer.rs:53 | the parts with the separator between each adjacent pair (partner: SplitJoin) |
| Summarizer.Compute | src/summarizer.rs:18-55 | the result is the first k ranked sentences joined by one space, or the slice error when k exceeds n; k = 0 gives ""; 0 ≤ r ≤ 1 never errs |

## Left out

- Sentence segmentation (`Tokenizer::text_to_sentences`, a wrapper over a pretrained external model): the model takes the segmented sentences as its input.
- `Summarizer::par_compute`: its point is thread-parallel scoring. It also differs from `compute` in ways the model does not follow: mean instead of sum, `". "` as separator, token lists paired with sentences in completion order, and 0/0 for a stopword-only sentence.
- The C-ABI and JNI exports of src/lib.rs: foreign calls and unsafe hand-over of memory ownership.
- Floating point: scores are exact reals, so f32 rounding, NaN, infinities and `total_cmp`'s ordering of -0.0 and NaN are not modelled. The logarithm is a parameter.
- Summarizer.SummaryLength: exact product r·n, without the f32 rounding of the product and without the `as usize` saturation at the top of the range. A saturated value exceeds n anyway, so the result is the same slice error.
- Tokenizer.ToLowercase: folds ASCII letters only, not full Unicode `to_lowercase`. This is the same for the stopword test: every stopword is ASCII, and the one non-ASCII character that lower-cases to an ASCII letter (KELVIN SIGN to `k`) appears in no stopword.
- Summarizer.ComputeInverseDocFrequency: requires every word of the sentence to occur in the corpus. The f32 division by zero to infinity is not modelled. In `compute` the requirement always holds (Summarizer.TokensInCorpus).
- Summarizer.ScoreSentences: requires as many token lists as sentences. In `compute` the lists are built one per sentence.
- Summarizer.SortByScoreDescending: an insertion sort rather than the standard library's merge sort. Both are stable, and Summarizer.StableRankingUnique shows that every stable sort gives the same order.
- Summarizer.ComputeTermFrequency: visits the counted words in an unspecified order, as iteration over a hash map does. The resulting map does not depend on the order.
- Strings are sequences of characters rather than UTF-8 bytes. Borrowed `&str` slices and lifetimes are not modelled.
