/**
 * The sequential TF-IDF summarizer (`Summarizer::compute` and its helpers
 * in src/summarizer.rs). Scores are exact reals; the base-10 logarithm is a
 * parameter `log10`, so every statement below holds whatever logarithm the
 * floating-point library supplies.
 */
module Summarizer {
  import opened Tokenizer

  /** Slicing `sentences[0..end]` past the end of the ranked list panics. */
  datatype SummaryError = SliceOutOfRange(end: nat, len: nat)

  datatype Result<T> = Ok(value: T) | Err(error: SummaryError)

  // ---------------------------------------------------------------------
  // Sums over the values of a map

  /** The real-valued counterpart of Tokenizer.SumCounts. The tokenizer's
      word counts are natural numbers and stay free of reals; the term
      frequencies summed here are quotients, so the fold is stated once per
      value type, and ScaledSum relates the two. */
  ghost function SumValues(m: map<string, real>): real
    decreases |m|
  {
    if m == map[] then 0.0
    else
      var k :| k in m;
      m[k] + SumValues(m - {k})
  }

  /** SumValues may peel off any key, not only the one it picks itself. */
  lemma {:induction false} SumValuesRemove(m: map<string, real>, k: string)
    requires k in m
    ensures SumValues(m) == m[k] + SumValues(m - {k})
    decreases |m|
  {
    var j :| j in m && SumValues(m) == m[j] + SumValues(m - {j});
    if j != k {
      SumValuesRemove(m - {j}, k);
      SumValuesRemove(m - {k}, j);
      assert m - {j} - {k} == m - {k} - {j};
    }
  }

  /** Every count of `m` divided by `d`. */
  function Scaled(m: map<string, nat>, d: real): map<string, real>
    requires d > 0.0
  {
    map w | w in m :: m[w] as real / d
  }

  lemma DivideSum(x: real, y: real, z: real, d: real)
    requires d > 0.0 && z == x + y
    ensures x / d + y / d == z / d
  {
  }

  lemma ScaledRemove(m: map<string, nat>, d: real, k: string)
    requires d > 0.0 && k in m
    ensures k in Scaled(m, d) && Scaled(m, d)[k] == m[k] as real / d
    ensures Scaled(m, d) - {k} == Scaled(m - {k}, d)
  {
  }

  /** Scaling every count by 1/d scales their sum by 1/d. */
  lemma {:induction false} ScaledSum(m: map<string, nat>, d: real)
    requires d > 0.0
    ensures SumValues(Scaled(m, d)) == SumCounts(m) as real / d
    decreases |m|
  {
    if m != map[] {
      var k :| k in m;
      SumCountsRemove(m, k);
      ScaledRemove(m, d, k);
      SumValuesRemove(Scaled(m, d), k);
      ScaledSum(m - {k}, d);
      DivideSum(m[k] as real, SumCounts(m - {k}) as real, SumCounts(m) as real, d);
    } else {
      assert Scaled(m, d) == map[];
    }
  }

  // ---------------------------------------------------------------------
  // Term frequency

  /** TF of one token list: each distinct token to count / length. */
  function TermFrequency(tokens: seq<string>): map<string, real> {
    map w | w in tokens :: multiset(tokens)[w] as real / |tokens| as real
  }

  /** `Summarizer::compute_term_frequency`: counts the tokens with
      `get_freq_map`, then inserts count / length for each counted word.
      An empty token list gives an empty map, so no division by zero occurs. */
  method ComputeTermFrequency(tokens: seq<string>) returns (tf: map<string, real>)
    ensures tf.Keys == set w | w in tokens
    ensures forall w :: w in tf ==> tf[w] == multiset(tokens)[w] as real / |tokens| as real
    ensures tf == TermFrequency(tokens)
  {
    var freq := GetFreqMap(tokens);
    var numTokens := |tokens| as real;
    tf := map[];
    var remaining := freq.Keys;
    while remaining != {}
      invariant remaining <= freq.Keys
      invariant tf.Keys == freq.Keys - remaining
      invariant forall w :: w in tf ==> tf[w] == freq[w] as real / numTokens
      decreases |remaining|
    {
      var word :| word in remaining;
      assert word in tokens;
      tf := tf[word := freq[word] as real / numTokens];
      remaining := remaining - {word};
    }
    TermFrequencyDetermined(tokens, tf);
  }

  /** Keys and values as ComputeTermFrequency promises pin the map down. */
  lemma TermFrequencyDetermined(tokens: seq<string>, tf: map<string, real>)
    requires tf.Keys == set w | w in tokens
    requires forall w :: w in tf ==> tf[w] == multiset(tokens)[w] as real / |tokens| as real
    ensures tf == TermFrequency(tokens)
  {
  }

  lemma {:induction false} CountAtMostLength(s: seq<string>, w: string)
    ensures multiset(s)[w] <= |s|
    decreases |s|
  {
    if s != [] {
      assert s == [s[0]] + s[1..];
      CountAtMostLength(s[1..], w);
    }
  }

  /** Every TF value lies in (0, 1]. */
  lemma TermFrequencyBounds(tokens: seq<string>, w: string)
    requires w in tokens
    ensures w in TermFrequency(tokens)
    ensures 0.0 < TermFrequency(tokens)[w] <= 1.0
  {
    CountAtMostLength(tokens, w);
  }

  /** The TF values of a non-empty token list add up to 1. */
  lemma TermFrequencySumsToOne(tokens: seq<string>)
    requires tokens != []
    ensures SumValues(TermFrequency(tokens)) == 1.0
  {
    var d := |tokens| as real;
    var tf, scaled := TermFrequency(tokens), Scaled(FreqMap(tokens), d);
    assert tf.Keys == scaled.Keys;
    forall w | w in tf
      ensures tf[w] == scaled[w]
    {
    }
    assert tf == scaled;
    ScaledSum(FreqMap(tokens), d);
    FreqMapSum(tokens);
    DivideSelf(d);
  }

  lemma DivideSelf(d: real)
    requires d > 0.0
    ensures d / d == 1.0
  {
  }

  // ---------------------------------------------------------------------
  // Inverse document frequency

  /** Total number of occurrences of `w` over every token list of the corpus
      (the IDF denominator the summarizer uses). */
  function Occurrences(corpus: seq<seq<string>>, w: string): nat {
    if corpus == [] then 0
    else Occurrences(corpus[..|corpus| - 1], w) + multiset(corpus[|corpus| - 1])[w]
  }

  /** Number of token lists that contain `w` (the classical IDF denominator,
      which the summarizer does not use). */
  function DocumentFrequency(corpus: seq<seq<string>>, w: string): nat {
    if corpus == [] then 0
    else DocumentFrequency(corpus[..|corpus| - 1], w) + (if w in corpus[|corpus| - 1] then 1 else 0)
  }

  /** Counting occurrences never counts fewer than counting lists, and the
      two agree exactly when no single list repeats the word. */
  lemma {:induction false} OccurrencesVersusDocumentFrequency(corpus: seq<seq<string>>, w: string)
    ensures Occurrences(corpus, w) >= DocumentFrequency(corpus, w)
    ensures Occurrences(corpus, w) == DocumentFrequency(corpus, w) <==>
              forall j :: 0 <= j < |corpus| ==> multiset(corpus[j])[w] <= 1
    decreases |corpus|
  {
    if corpus != [] {
      var init := corpus[..|corpus| - 1];
      OccurrencesVersusDocumentFrequency(init, w);
      assert forall j :: 0 <= j < |init| ==> init[j] == corpus[j];
    }
  }

  /** A word of the `j`-th list occurs in the corpus at least as often as there. */
  lemma {:induction false} OccurrencesAtLeast(corpus: seq<seq<string>>, j: nat, w: string)
    requires j < |corpus|
    ensures Occurrences(corpus, w) >= multiset(corpus[j])[w]
    decreases |corpus|
  {
    if j < |corpus| - 1 {
      OccurrencesAtLeast(corpus[..|corpus| - 1], j, w);
    }
  }

  /** IDF of the words of one token list: log10(number of lists / occurrences). */
  function InverseDocFrequency(sentence: seq<string>, corpus: seq<seq<string>>, log10: real -> real): map<string, real>
    requires forall w :: w in sentence ==> Occurrences(corpus, w) > 0
  {
    map w | w in sentence :: log10(|corpus| as real / Occurrences(corpus, w) as real)
  }

  /** `Summarizer::compute_inverse_doc_frequency`: for every word of the
      sentence, count its occurrences list by list over the corpus, then
      insert log10(number of lists / count). */
  method ComputeInverseDocFrequency(sentence: seq<string>, corpus: seq<seq<string>>, log10: real -> real)
    returns (idf: map<string, real>)
    requires forall w :: w in sentence ==> Occurrences(corpus, w) > 0
    ensures idf.Keys == set w | w in sentence
    ensures forall w :: w in idf ==> idf[w] == log10(|corpus| as real / Occurrences(corpus, w) as real)
    ensures idf == InverseDocFrequency(sentence, corpus, log10)
  {
    var numDocs := |corpus| as real;
    idf := map[];
    for i := 0 to |sentence|
      invariant idf.Keys == set w | w in sentence[..i]
      invariant forall w :: w in idf ==> idf[w] == log10(numDocs / Occurrences(corpus, w) as real)
    {
      var word := sentence[i];
      var wordCountInDocs := 0;
      for j := 0 to |corpus|
        invariant wordCountInDocs == Occurrences(corpus[..j], word)
      {
        assert corpus[..j + 1][..j] == corpus[..j];
        wordCountInDocs := wordCountInDocs + multiset(corpus[j])[word];
      }
      assert corpus[..|corpus|] == corpus;
      assert sentence[..i + 1] == sentence[..i] + [word];
      idf := idf[word := log10(numDocs / wordCountInDocs as real)];
    }
    assert sentence[..|sentence|] == sentence;
  }

  // ---------------------------------------------------------------------
  // Sentence scores

  /** tf(w)·idf(w) for every word with both a TF and an IDF value. */
  function TfIdfWeight(tf: map<string, real>, idf: map<string, real>): (weight: map<string, real>)
    ensures weight.Keys == tf.Keys * idf.Keys
  {
    map w | w in tf && w in idf :: tf[w] * idf[w]
  }

  /** Sum over the occurrences of `ws`, repeats included, of their weight. */
  function OccurrenceSum(ws: seq<string>, weight: map<string, real>): real
    requires forall w :: w in ws ==> w in weight
  {
    if ws == [] then 0.0
    else OccurrenceSum(ws[..|ws| - 1], weight) + weight[ws[|ws| - 1]]
  }

  /** `c` copies of `f` added up. */
  function Repeat(c: nat, f: real): real {
    if c == 0 then 0.0 else Repeat(c - 1, f) + f
  }

  lemma {:induction false} RepeatIsProduct(c: nat, f: real)
    ensures Repeat(c, f) == c as real * f
  {
    if c > 0 {
      RepeatIsProduct(c - 1, f);
    }
  }

  /** Each distinct word's weight, added up as many times as the word occurs. */
  function WeightByCount(ws: seq<string>, weight: map<string, real>): map<string, real>
    requires forall w :: w in ws ==> w in weight
  {
    map w | w in ws :: Repeat(multiset(ws)[w], weight[w])
  }

  lemma WeightByCountLastRest(ws: seq<string>, weight: map<string, real>)
    requires ws != []
    requires forall w :: w in ws ==> w in weight
    ensures var x := ws[|ws| - 1];
      WeightByCount(ws, weight) - {x} == WeightByCount(ws[..|ws| - 1], weight) - {x}
  {
    var init, x := ws[..|ws| - 1], ws[|ws| - 1];
    assert ws == init + [x];
    var m, m0 := WeightByCount(ws, weight), WeightByCount(init, weight);
    assert multiset(ws) == multiset(init) + multiset{x};
    forall w | w in m - {x}
      ensures w in m0 - {x} && (m - {x})[w] == (m0 - {x})[w]
    {
      assert w in init;
    }
    forall w | w in m0 - {x}
      ensures w in m - {x}
    {
    }
    assert (m - {x}).Keys == (m0 - {x}).Keys;
  }

  lemma WeightByCountLastValue(ws: seq<string>, weight: map<string, real>)
    requires ws != []
    requires forall w :: w in ws ==> w in weight
    ensures var init, x := ws[..|ws| - 1], ws[|ws| - 1];
      && x in WeightByCount(ws, weight)
      && WeightByCount(ws, weight)[x] ==
           (if x in init then WeightByCount(init, weight)[x] else 0.0) + weight[x]
  {
    var init, x := ws[..|ws| - 1], ws[|ws| - 1];
    assert ws == init + [x];
    var c := multiset(init)[x];
    assert multiset(ws)[x] == c + 1;
    assert x in ws;
    assert WeightByCount(ws, weight)[x] == Repeat(c + 1, weight[x]);
    if x !in init {
      assert c == 0;
      assert Repeat(1, weight[x]) == Repeat(0, weight[x]) + weight[x];
    }
  }

  /** The per-occurrence sum equals the per-word sum in which each word's
      weight counts as many times as the word occurs. */
  lemma {:induction false} OccurrenceSumByWord(ws: seq<string>, weight: map<string, real>)
    requires forall w :: w in ws ==> w in weight
    ensures OccurrenceSum(ws, weight) == SumValues(WeightByCount(ws, weight))
    decreases |ws|
  {
    if ws == [] {
      assert WeightByCount(ws, weight) == map[];
    } else {
      var init, x := ws[..|ws| - 1], ws[|ws| - 1];
      OccurrenceSumByWord(init, weight);
      WeightByCountLastRest(ws, weight);
      WeightByCountLastValue(ws, weight);
      var m, m0 := WeightByCount(ws, weight), WeightByCount(init, weight);
      SumValuesRemove(m, x);
      if x in init {
        SumValuesRemove(m0, x);
      } else {
        assert m0 - {x} == m0;
      }
    }
  }

  /** Score of one token list against the corpus: the sum of tf·idf over its
      token occurrences. */
  function Score(tokens: seq<string>, corpus: seq<seq<string>>, log10: real -> real): real
    requires forall w :: w in tokens ==> Occurrences(corpus, w) > 0
  {
    OccurrenceSum(tokens, TfIdfWeight(TermFrequency(tokens), InverseDocFrequency(tokens, corpus, log10)))
  }

  /** Every word of the `j`-th token list occurs in the corpus, so its IDF
      ratio has a non-zero denominator. */
  lemma TokensInCorpus(corpus: seq<seq<string>>, j: nat)
    requires j < |corpus|
    ensures forall w :: w in corpus[j] ==> Occurrences(corpus, w) > 0
  {
    forall w | w in corpus[j]
      ensures Occurrences(corpus, w) > 0
    {
      OccurrencesAtLeast(corpus, j, w);
    }
  }

  /** The score of the `j`-th token list of the corpus. */
  function ListScore(corpus: seq<seq<string>>, j: nat, log10: real -> real): real
    requires j < |corpus|
  {
    TokensInCorpus(corpus, j);
    Score(corpus[j], corpus, log10)
  }

  /** The token list of every sentence, in sentence order. */
  function Corpus(sentences: seq<string>): (corpus: seq<seq<string>>)
    ensures |corpus| == |sentences|
    ensures forall i :: 0 <= i < |sentences| ==> corpus[i] == SentenceToTokens(sentences[i])
  {
    seq(|sentences|, i requires 0 <= i < |sentences| => SentenceToTokens(sentences[i]))
  }

  /** The score `compute` gives a sentence of the document: that of its own
      token list against the token lists of all sentences. */
  function SentenceScore(s: string, sentences: seq<string>, log10: real -> real): real
    requires s in sentences
  {
    SentenceInCorpus(s, sentences);
    Score(SentenceToTokens(s), Corpus(sentences), log10)
  }

  lemma SentenceInCorpus(s: string, sentences: seq<string>)
    requires s in sentences
    ensures forall w :: w in SentenceToTokens(s) ==> Occurrences(Corpus(sentences), w) > 0
  {
    var j :| 0 <= j < |sentences| && sentences[j] == s;
    TokensInCorpus(Corpus(sentences), j);
  }

  /** The `sentence_scores` map after the first `n` insertions: the i-th
      list's score keyed by the i-th sentence's text, a later insertion
      overwriting an earlier one (ScoreTableLastInsertion). */
  function ScoreTable(sentences: seq<string>, corpus: seq<seq<string>>, log10: real -> real, n: nat)
    : (table: map<string, real>)
    requires n <= |sentences| == |corpus|
    ensures table.Keys == set s | s in sentences[..n]
  {
    if n == 0 then map[]
    else
      assert sentences[..n] == sentences[..n - 1] + [sentences[n - 1]];
      ScoreTable(sentences, corpus, log10, n - 1)[sentences[n - 1] := ListScore(corpus, n - 1, log10)]
  }

  /** Last insertion wins: the entry of a text is the score of the list at
      the last of the first `n` positions holding that text. */
  lemma {:induction false} ScoreTableLastInsertion(sentences: seq<string>, corpus: seq<seq<string>>,
                                                   log10: real -> real, n: nat, k: nat)
    requires k < n <= |sentences| == |corpus|
    requires forall k' :: k < k' < n ==> sentences[k'] != sentences[k]
    ensures ScoreTable(sentences, corpus, log10, n)[sentences[k]] == ListScore(corpus, k, log10)
  {
    if k < n - 1 {
      ScoreTableLastInsertion(sentences, corpus, log10, n - 1, k);
    }
  }

  /** An empty token list scores 0. */
  lemma EmptySentenceScoresZero(s: string, sentences: seq<string>, log10: real -> real)
    requires s in sentences && SentenceToTokens(s) == []
    ensures SentenceScore(s, sentences, log10) == 0.0
  {
  }

  // ---------------------------------------------------------------------
  // Ranking

  /** `perm` is a bijection on 0..n-1. */
  ghost predicate IsPermutation(perm: seq<nat>, n: nat) {
    && |perm| == n
    && (forall i :: 0 <= i < n ==> perm[i] < n)
    && (forall i, j :: 0 <= i < j < n ==> perm[i] != perm[j])
    && (forall v :: 0 <= v < n ==> v in perm)
  }

  /** `ranked` is `original` rearranged by `perm`, in non-increasing score
      order, with equal-score sentences in their original relative order. */
  ghost predicate StableRanking(ranked: seq<string>, original: seq<string>, perm: seq<nat>, scores: map<string, real>) {
    && |ranked| == |original|
    && IsPermutation(perm, |original|)
    && (forall i :: 0 <= i < |ranked| ==> ranked[i] == original[perm[i]])
    && (forall s :: s in original ==> s in scores)
    && (forall i, j :: 0 <= i < j < |ranked| ==> scores[ranked[i]] >= scores[ranked[j]])
    && (forall i, j :: 0 <= i < j < |ranked| && scores[ranked[i]] == scores[ranked[j]] ==> perm[i] < perm[j])
  }

  /** The stable ranking of a list is unique: any stable sort (Rust's merge
      sort, the insertion sort below) produces the same order. */
  lemma StableRankingUnique(original: seq<string>, scores: map<string, real>,
                            r1: seq<string>, p1: seq<nat>, r2: seq<string>, p2: seq<nat>)
    requires StableRanking(r1, original, p1, scores)
    requires StableRanking(r2, original, p2, scores)
    ensures p1 == p2 && r1 == r2
  {
    var n := |original|;
    var i := 0;
    while i < n
      invariant 0 <= i <= n
      invariant forall m :: 0 <= m < i ==> p1[m] == p2[m]
    {
      var a, b := p1[i], p2[i];
      assert a in p2 && b in p1;
      var ia :| 0 <= ia < n && p2[ia] == a;
      var ib :| 0 <= ib < n && p1[ib] == b;
      if a != b {
        assert false;
      }
      i := i + 1;
    }
  }

  /** Swapping two neighbours of a sequence. */
  function SwapAdjacent<T>(s: seq<T>, j: nat): (t: seq<T>)
    requires 0 < j < |s|
    ensures |t| == |s| && t[j - 1] == s[j] && t[j] == s[j - 1]
    ensures forall m :: 0 <= m < |s| && m != j - 1 && m != j ==> t[m] == s[m]
  {
    s[j - 1 := s[j]][j := s[j - 1]]
  }

  lemma SwapKeepsMultiset(s: seq<string>, j: nat)
    requires 0 < j < |s|
    ensures multiset(SwapAdjacent(s, j)) == multiset(s)
  {
    var t := SwapAdjacent(s, j);
    assert s == s[..j - 1] + [s[j - 1], s[j]] + s[j + 1..];
    assert t == s[..j - 1] + [s[j], s[j - 1]] + s[j + 1..];
  }

  lemma SwapKeepsPermutation(perm: seq<nat>, n: nat, j: nat)
    requires IsPermutation(perm, n) && 0 < j < n
    ensures IsPermutation(SwapAdjacent(perm, j), n)
  {
    var after := SwapAdjacent(perm, j);
    forall v | 0 <= v < n
      ensures v in after
    {
      assert v in perm;
      var k :| 0 <= k < n && perm[k] == v;
      if k == j - 1 {
        assert after[j] == v;
      } else if k == j {
        assert after[j - 1] == v;
      } else {
        assert after[k] == v;
      }
    }
  }

  /** `s` is `orig` rearranged by the bijection `perm`, and every element has a score. */
  ghost predicate Tracks(s: seq<string>, orig: seq<string>, perm: seq<nat>, scores: map<string, real>) {
    && |s| == |orig|
    && IsPermutation(perm, |s|)
    && (forall m :: 0 <= m < |s| ==> s[m] == orig[perm[m]] && s[m] in scores)
  }

  /** Outer-loop state of the insertion sort: s[..i] is stably ranked and
      s[i..] is still in its original place. */
  ghost predicate SortedPrefix(s: seq<string>, perm: seq<nat>, scores: map<string, real>, i: nat)
    requires |perm| == |s| && i <= |s|
    requires forall m :: 0 <= m < |s| ==> s[m] in scores
  {
    && (forall m :: i <= m < |s| ==> perm[m] == m)
    && (forall m :: 0 <= m < i ==> perm[m] < i)
    && (forall m, m' :: 0 <= m < m' < i ==> scores[s[m]] >= scores[s[m']])
    && (forall m, m' :: 0 <= m < m' < i && scores[s[m]] == scores[s[m']] ==> perm[m] < perm[m'])
  }

  /** Inner-loop state: the element that started at position i now sits at
      j; without it, s[..i + 1] is stably ranked; it outscores everything
      it has passed. */
  ghost predicate Inserting(s: seq<string>, perm: seq<nat>, scores: map<string, real>, i: nat, j: nat)
    requires |perm| == |s| && j <= i < |s|
    requires forall m :: 0 <= m < |s| ==> s[m] in scores
  {
    && perm[j] == i
    && (forall m :: i < m < |s| ==> perm[m] == m)
    && (forall m :: 0 <= m <= i && m != j ==> perm[m] < i)
    && (forall m, m' :: 0 <= m < m' <= i && m != j && m' != j ==> scores[s[m]] >= scores[s[m']])
    && (forall m, m' :: 0 <= m < m' <= i && m != j && m' != j && scores[s[m]] == scores[s[m']] ==> perm[m] < perm[m'])
    && (forall m :: j < m <= i ==> scores[s[j]] > scores[s[m]])
  }

  lemma StartInserting(s: seq<string>, orig: seq<string>, perm: seq<nat>, scores: map<string, real>, i: nat)
    requires Tracks(s, orig, perm, scores) && i < |s|
    requires SortedPrefix(s, perm, scores, i)
    ensures Inserting(s, perm, scores, i, i)
  {
  }

  lemma SwapStep(s: seq<string>, orig: seq<string>, perm: seq<nat>, scores: map<string, real>, i: nat, j: nat)
    requires Tracks(s, orig, perm, scores) && 0 < j <= i < |s|
    requires Inserting(s, perm, scores, i, j)
    requires scores[s[j - 1]] < scores[s[j]]
    ensures Tracks(SwapAdjacent(s, j), orig, SwapAdjacent(perm, j), scores)
    ensures Inserting(SwapAdjacent(s, j), SwapAdjacent(perm, j), scores, i, j - 1)
  {
    SwapKeepsPermutation(perm, |s|, j);
  }

  lemma FinishInserting(s: seq<string>, orig: seq<string>, perm: seq<nat>, scores: map<string, real>, i: nat, j: nat)
    requires Tracks(s, orig, perm, scores) && j <= i < |s|
    requires Inserting(s, perm, scores, i, j)
    requires j == 0 || scores[s[j - 1]] >= scores[s[j]]
    ensures SortedPrefix(s, perm, scores, i + 1)
  {
  }

  lemma SortedPrefixIsStableRanking(s: seq<string>, orig: seq<string>, perm: seq<nat>, scores: map<string, real>)
    requires Tracks(s, orig, perm, scores)
    requires SortedPrefix(s, perm, scores, |s|)
    ensures StableRanking(s, orig, perm, scores)
  {
    forall x | x in orig
      ensures x in scores
    {
      var k :| 0 <= k < |orig| && orig[k] == x;
      assert k in perm;
      var m :| 0 <= m < |perm| && perm[m] == k;
      assert s[m] == x;
    }
  }

  /** One pass of the insertion sort: move a[i] left past every element
      with a strictly lower score, so that a[..i + 1] is stably ranked. */
  method InsertNext(a: array<string>, scores: map<string, real>, i: nat, ghost orig: seq<string>, ghost perm0: seq<nat>)
    returns (ghost perm: seq<nat>)
    requires i < a.Length
    requires Tracks(a[..], orig, perm0, scores)
    requires SortedPrefix(a[..], perm0, scores, i)
    modifies a
    ensures Tracks(a[..], orig, perm, scores)
    ensures SortedPrefix(a[..], perm, scores, i + 1)
    ensures multiset(a[..]) == multiset(old(a[..]))
  {
    perm := perm0;
    StartInserting(a[..], orig, perm, scores, i);
    var j := i;
    while j > 0 && scores[a[j - 1]] < scores[a[j]]
      invariant 0 <= j <= i
      invariant Tracks(a[..], orig, perm, scores)
      invariant Inserting(a[..], perm, scores, i, j)
      invariant multiset(a[..]) == multiset(old(a[..]))
    {
      SwapStep(a[..], orig, perm, scores, i, j);
      SwapKeepsMultiset(a[..], j);
      ghost var swapped := SwapAdjacent(a[..], j);
      a[j - 1], a[j] := a[j], a[j - 1];
      assert a[..] == swapped;
      perm := SwapAdjacent(perm, j);
      j := j - 1;
    }
    FinishInserting(a[..], orig, perm, scores, i, j);
  }

  /** `sentences.sort_by(...)` with the comparator `scores[b].total_cmp(scores[a])`:
      a stable sort into non-increasing score order, done in place. Modelled
      as an insertion sort; `perm` records where each element came from. */
  method SortByScoreDescending(a: array<string>, scores: map<string, real>) returns (ghost perm: seq<nat>)
    requires forall i :: 0 <= i < a.Length ==> a[i] in scores
    modifies a
    ensures StableRanking(a[..], old(a[..]), perm, scores)
    ensures multiset(a[..]) == multiset(old(a[..]))
  {
    ghost var orig := a[..];
    var n := a.Length;
    perm := seq(n, i => i);
    forall v | 0 <= v < n
      ensures v in perm
    {
      assert perm[v] == v;
    }
    for i := 0 to n
      invariant Tracks(a[..], orig, perm, scores)
      invariant SortedPrefix(a[..], perm, scores, i)
      invariant multiset(a[..]) == multiset(orig)
    {
      perm := InsertNext(a, scores, i, orig, perm);
    }
    SortedPrefixIsStableRanking(a[..], orig, perm, scores);
  }

  // ---------------------------------------------------------------------
  // Selection

  /** `(reduction_factor * n as f32) as usize` in exact arithmetic: the
      product truncated toward zero, a non-positive product giving 0. */
  function SummaryLength(reductionFactor: real, n: nat): (k: nat)
    ensures reductionFactor * n as real <= 0.0 ==> k == 0
    ensures reductionFactor * n as real > 0.0 ==>
              k as real <= reductionFactor * n as real < k as real + 1.0
    ensures 0.0 <= reductionFactor <= 1.0 ==> k <= n
    ensures reductionFactor == 1.0 ==> k == n
  {
    FractionOfCount(reductionFactor, n);
    var x := reductionFactor * n as real;
    if x <= 0.0 then 0 else x.Floor
  }

  lemma FractionOfCount(r: real, n: nat)
    ensures 0.0 <= r <= 1.0 ==> 0.0 <= r * n as real <= n as real
    ensures r == 1.0 ==> r * n as real == n as real
  {
    if 0.0 <= r <= 1.0 {
      assert (1.0 - r) * n as real >= 0.0;
    }
  }

  /** The tokenizing loop of `compute`: one token list per sentence, pushed in order. */
  method TokenizeSentences(sentences: seq<string>) returns (tokens: seq<seq<string>>)
    ensures tokens == Corpus(sentences)
  {
    tokens := [];
    for i := 0 to |sentences|
      invariant |tokens| == i
      invariant forall j :: 0 <= j < i ==> tokens[j] == SentenceToTokens(sentences[j])
    {
      tokens := tokens + [SentenceToTokens(sentences[i])];
    }
  }

  /** The accumulation of `tfidf_sum`: tf·idf added once per token occurrence. */
  method SumTfIdf(tokenized: seq<string>, tf: map<string, real>, idf: map<string, real>) returns (tfidfSum: real)
    requires forall w :: w in tokenized ==> w in tf && w in idf
    ensures tfidfSum == OccurrenceSum(tokenized, TfIdfWeight(tf, idf))
    ensures tokenized == [] ==> tfidfSum == 0.0
  {
    tfidfSum := 0.0;
    for t := 0 to |tokenized|
      invariant tfidfSum == OccurrenceSum(tokenized[..t], TfIdfWeight(tf, idf))
    {
      assert tokenized[..t + 1][..t] == tokenized[..t];
      tfidfSum := tfidfSum + tf[tokenized[t]] * idf[tokenized[t]];
    }
    assert tokenized[..|tokenized|] == tokenized;
  }

  /** The body of the scoring loop for the i-th token list: its TF, its IDF
      against all token lists, and the tf·idf sum over its occurrences. */
  method ScoreList(tokens: seq<seq<string>>, i: nat, log10: real -> real) returns (tfidfSum: real)
    requires i < |tokens|
    ensures tfidfSum == ListScore(tokens, i, log10)
  {
    var tokenized := tokens[i];
    TokensInCorpus(tokens, i);
    var tf := ComputeTermFrequency(tokenized);
    var idf := ComputeInverseDocFrequency(tokenized, tokens, log10);
    tfidfSum := SumTfIdf(tokenized, tf, idf);
  }

  /** The scoring loop of `compute`: the i-th list's score is inserted into
      the score map under the i-th sentence's text, the counter advancing
      with the token lists. */
  method ScoreSentences(sentences: seq<string>, tokens: seq<seq<string>>, log10: real -> real)
    returns (sentenceScores: map<string, real>)
    requires |tokens| == |sentences|
    ensures sentenceScores == ScoreTable(sentences, tokens, log10, |sentences|)
  {
    sentenceScores := map[];
    var i := 0;
    while i < |tokens|
      invariant 0 <= i <= |tokens|
      invariant sentenceScores == ScoreTable(sentences, tokens, log10, i)
    {
      var tfidfSum := ScoreList(tokens, i, log10);
      sentenceScores := sentenceScores[sentences[i] := tfidfSum];
      i := i + 1;
    }
  }

  /** What a stable ranking says about each ranked element and each pair. */
  lemma StableRankingOrders(ranked: seq<string>, original: seq<string>, perm: seq<nat>, scores: map<string, real>)
    requires StableRanking(ranked, original, perm, scores)
    ensures forall i :: 0 <= i < |ranked| ==> ranked[i] in original && ranked[i] in scores
    ensures forall i, j :: 0 <= i < j < |ranked| ==> scores[ranked[i]] >= scores[ranked[j]]
  {
    forall i | 0 <= i < |ranked|
      ensures ranked[i] in original
    {
      assert ranked[i] == original[perm[i]];
    }
  }

  /** Sentences with the same text have the same token list. */
  ghost predicate SameTextSameTokens(sentences: seq<string>, corpus: seq<seq<string>>)
    requires |corpus| == |sentences|
  {
    forall k, k' :: 0 <= k < |sentences| && 0 <= k' < |sentences| && sentences[k] == sentences[k'] ==>
      corpus[k] == corpus[k']
  }

  lemma CorpusHasSameTextSameTokens(sentences: seq<string>)
    ensures SameTextSameTokens(sentences, Corpus(sentences))
  {
  }

  /** When equal texts have equal token lists, the table entry of every
      sentence is its own list's score, whichever insertion won. */
  lemma {:induction false} ScoreTableEntry(sentences: seq<string>, corpus: seq<seq<string>>, log10: real -> real,
                                           n: nat, k: nat)
    requires k < n <= |sentences| == |corpus|
    requires SameTextSameTokens(sentences, corpus)
    ensures sentences[k] in ScoreTable(sentences, corpus, log10, n)
    ensures ScoreTable(sentences, corpus, log10, n)[sentences[k]] == ListScore(corpus, k, log10)
  {
    if k < n - 1 {
      ScoreTableEntry(sentences, corpus, log10, n - 1, k);
      if sentences[k] == sentences[n - 1] {
        assert corpus[k] == corpus[n - 1];
      }
    }
  }

  /** A stable ranking by the score table puts the sentences in
      non-increasing order of their own token lists' scores. */
  lemma RankedByListScore(ranked: seq<string>, sentences: seq<string>, corpus: seq<seq<string>>,
                          perm: seq<nat>, log10: real -> real)
    requires |corpus| == |sentences| && SameTextSameTokens(sentences, corpus)
    requires StableRanking(ranked, sentences, perm, ScoreTable(sentences, corpus, log10, |sentences|))
    ensures forall i, j :: 0 <= i < j < |ranked| ==>
              ListScore(corpus, perm[i], log10) >= ListScore(corpus, perm[j], log10)
  {
    var table := ScoreTable(sentences, corpus, log10, |sentences|);
    StableRankingOrders(ranked, sentences, perm, table);
    forall i | 0 <= i < |ranked|
      ensures table[ranked[i]] == ListScore(corpus, perm[i], log10)
    {
      assert ranked[i] == sentences[perm[i]];
      ScoreTableEntry(sentences, corpus, log10, |sentences|, perm[i]);
    }
  }

  /** The i-th list of the document's own corpus scores as sentence i. */
  lemma ListScoreIsSentenceScore(sentences: seq<string>, k: nat, log10: real -> real)
    requires k < |sentences|
    ensures ListScore(Corpus(sentences), k, log10) == SentenceScore(sentences[k], sentences, log10)
  {
  }

  /** A stable ranking by the document's score map puts its sentences in
      non-increasing order of their own scores. The corpus is passed in
      (equal to the document's token lists) rather than recomputed. */
  lemma RankedBySentenceScore(ranked: seq<string>, sentences: seq<string>, corpus: seq<seq<string>>,
                              perm: seq<nat>, log10: real -> real)
    requires corpus == Corpus(sentences)
    requires StableRanking(ranked, sentences, perm, ScoreTable(sentences, corpus, log10, |sentences|))
    ensures forall i :: 0 <= i < |ranked| ==> ranked[i] in sentences
    ensures forall i, j :: 0 <= i < j < |ranked| ==>
              SentenceScore(ranked[i], sentences, log10) >= SentenceScore(ranked[j], sentences, log10)
  {
    CorpusHasSameTextSameTokens(sentences);
    RankedByListScore(ranked, sentences, corpus, perm, log10);
    StableRankingOrders(ranked, sentences, perm, ScoreTable(sentences, corpus, log10, |sentences|));
    forall i | 0 <= i < |ranked|
      ensures SentenceScore(ranked[i], sentences, log10) == ListScore(corpus, perm[i], log10)
    {
      assert ranked[i] == sentences[perm[i]];
      ListScoreIsSentenceScore(sentences, perm[i], log10);
    }
  }

  /** The first half of `compute`: tokenize every sentence, score each one by
      TF-IDF against all token lists, and rank the sentences by a stable sort
      on descending score. */
  method Rank(sentences: seq<string>, log10: real -> real) returns (a: array<string>, ghost perm: seq<nat>)
    ensures fresh(a)
    ensures StableRanking(a[..], sentences, perm, ScoreTable(sentences, Corpus(sentences), log10, |sentences|))
  {
    var tokens := TokenizeSentences(sentences);
    var sentenceScores := ScoreSentences(sentences, tokens, log10);
    a := new string[|sentences|](i requires 0 <= i < |sentences| => sentences[i]);
    assert a[..] == sentences;
    perm := SortByScoreDescending(a, sentenceScores);
  }

  /** `Summarizer::compute` on an already segmented document: rank the
      sentences, then join the first SummaryLength(reductionFactor, n)
      ranked sentences with one space. A length past the number of
      sentences is the slice panic. */
  method Compute(sentences: seq<string>, reductionFactor: real, log10: real -> real)
    returns (summary: Result<string>, ghost ranked: seq<string>, ghost perm: seq<nat>)
    ensures StableRanking(ranked, sentences, perm, ScoreTable(sentences, Corpus(sentences), log10, |sentences|))
    ensures var k := SummaryLength(reductionFactor, |sentences|);
            if k <= |sentences| then summary == Ok(Join(ranked[..k], " "))
            else summary == Err(SliceOutOfRange(k, |sentences|))
    ensures SummaryLength(reductionFactor, |sentences|) == 0 ==> summary == Ok("")
    ensures 0.0 <= reductionFactor <= 1.0 ==> summary.Ok?
  {
    var a;
    a, perm := Rank(sentences, log10);
    ranked := a[..];
    var numSummarySents := SummaryLength(reductionFactor, |sentences|);
    if numSummarySents <= a.Length {
      summary := Ok(Join(a[..numSummarySents], " "));
    } else {
      summary := Err(SliceOutOfRange(numSummarySents, a.Length));
    }
  }
}
