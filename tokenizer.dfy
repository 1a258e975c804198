/**
 * Stopword-filtered tokenization and word counting of one sentence
 * (src/tokenizer.rs). Sentence segmentation is not part of this module:
 * the summarizer receives the segmented sentences as its input.
 */
module Tokenizer {

  /** The fixed table of 127 lower-case English stopwords (`KEYWORDS`). */
  const Keywords: seq<string> :=
    ["i", "me", "my", "myself", "we", "our", "ours", "ourselves", "you", "your", "yours", "yourself", "yourselves", "he", "him", "his"]
    + ["himself", "she", "her", "hers", "herself", "it", "its", "itself", "they", "them", "their", "theirs", "themselves", "what", "which", "who"]
    + ["whom", "this", "that", "these", "those", "am", "is", "are", "was", "were", "be", "been", "being", "have", "has", "had"]
    + ["having", "do", "does", "did", "doing", "a", "an", "the", "and", "but", "if", "or", "because", "as", "until", "while"]
    + ["of", "at", "by", "for", "with", "about", "against", "between", "into", "through", "during", "before", "after", "above", "below", "to"]
    + ["from", "up", "down", "in", "out", "on", "off", "over", "under", "again", "further", "then", "once", "here", "there", "when"]
    + ["where", "why", "how", "all", "any", "both", "each", "few", "more", "most", "other", "some", "such", "no", "nor", "not"]
    + ["only", "own", "same", "so", "than", "too", "very", "s", "t", "can", "will", "just", "don", "should", "now"]

  /** The bytes `u8::is_ascii_whitespace` accepts: space, tab, line feed,
      form feed and carriage return (vertical tab is not one of them). */
  predicate IsAsciiWhitespace(c: char) {
    c == ' ' || c == '\t' || c == '\n' || c == '\U{000C}' || c == '\r'
  }

  /** A piece of a whitespace split: non-empty and free of ASCII whitespace. */
  predicate IsWord(p: string) {
    p != [] && forall i :: 0 <= i < |p| ==> !IsAsciiWhitespace(p[i])
  }

  /** Lower-case fold of one character, restricted to ASCII letters. */
  function ToAsciiLower(c: char): (d: char)
    ensures 'A' <= c <= 'Z' ==> 'a' <= d <= 'z' && d as int - c as int == 32
    ensures !('A' <= c <= 'Z') ==> d == c
  {
    if 'A' <= c <= 'Z' then (c as int + 32) as char else c
  }

  function ToLowercase(s: string): (t: string)
    ensures |t| == |s|
    ensures forall i :: 0 <= i < |s| ==> t[i] == ToAsciiLower(s[i])
  {
    if s == [] then [] else [ToAsciiLower(s[0])] + ToLowercase(s[1..])
  }

  /** A token is dropped when its lower-case form is in the table. */
  predicate IsStopword(token: string) {
    ToLowercase(token) in Keywords
  }

  /** Length of the run of non-whitespace characters that starts `s`. */
  function WordLength(s: string): (n: nat)
    ensures n <= |s|
    ensures forall i :: 0 <= i < n ==> !IsAsciiWhitespace(s[i])
    ensures n < |s| ==> IsAsciiWhitespace(s[n])
  {
    if s == [] || IsAsciiWhitespace(s[0]) then 0 else 1 + WordLength(s[1..])
  }

  /** `str::split_ascii_whitespace`: the maximal runs of non-whitespace
      characters, in order; leading, trailing and repeated whitespace yield
      no empty pieces. */
  function SplitAsciiWhitespace(s: string): (pieces: seq<string>)
    ensures forall p :: p in pieces ==> IsWord(p)
    decreases |s|
  {
    if s == [] then []
    else if IsAsciiWhitespace(s[0]) then SplitAsciiWhitespace(s[1..])
    else
      var n := WordLength(s);
      [s[..n]] + SplitAsciiWhitespace(s[n..])
  }

  /** `[&str]::join`: the parts with `sep` between each adjacent pair. */
  function Join(parts: seq<string>, sep: string): string {
    if parts == [] then ""
    else if |parts| == 1 then parts[0]
    else parts[0] + sep + Join(parts[1..], sep)
  }

  /** The characters of `s` that are not ASCII whitespace, in order. */
  function RemoveWhitespace(s: string): string {
    if s == [] then []
    else (if IsAsciiWhitespace(s[0]) then [] else [s[0]]) + RemoveWhitespace(s[1..])
  }

  function Concat(pieces: seq<string>): string {
    if pieces == [] then [] else pieces[0] + Concat(pieces[1..])
  }

  /** `a` is `b` with some elements left out, the rest in their order. */
  ghost predicate IsSubsequence(a: seq<string>, b: seq<string>)
    decreases |b|
  {
    if a == [] then true
    else if b == [] then false
    else (a[0] == b[0] && IsSubsequence(a[1..], b[1..])) || IsSubsequence(a, b[1..])
  }

  /** The `filter` step: keep the pieces that are not stopwords. */
  function KeepNonStopwords(pieces: seq<string>): seq<string> {
    if pieces == [] then []
    else if IsStopword(pieces[0]) then KeepNonStopwords(pieces[1..])
    else [pieces[0]] + KeepNonStopwords(pieces[1..])
  }

  /** The filter keeps pieces in their order, leaving some out. */
  lemma {:induction false} KeepNonStopwordsIsSubsequence(pieces: seq<string>)
    ensures IsSubsequence(KeepNonStopwords(pieces), pieces)
  {
    if pieces != [] {
      KeepNonStopwordsIsSubsequence(pieces[1..]);
      SubsequenceOfTail(KeepNonStopwords(pieces[1..]), pieces);
    }
  }

  lemma {:induction false} SubsequenceOfTail(a: seq<string>, b: seq<string>)
    requires b != [] && IsSubsequence(a, b[1..])
    ensures IsSubsequence(a, b) && IsSubsequence([b[0]] + a, b)
  {
    assert ([b[0]] + a)[1..] == a;
  }

  /** Each stopword is dropped at every occurrence and every other piece is
      kept at every occurrence. */
  lemma {:induction false} KeepNonStopwordsCounts(pieces: seq<string>)
    ensures forall p :: multiset(KeepNonStopwords(pieces))[p] ==
              if IsStopword(p) then 0 else multiset(pieces)[p]
  {
    if pieces != [] {
      KeepNonStopwordsCounts(pieces[1..]);
      assert pieces == [pieces[0]] + pieces[1..];
    }
  }

  /** `Tokenizer::sentence_to_tokens`: the whitespace-split pieces of the
      sentence whose lower-case form is not a stopword, in their original
      order and casing. */
  function SentenceToTokens(sentence: string): seq<string> {
    KeepNonStopwords(SplitAsciiWhitespace(sentence))
  }

  /** Every token is a whitespace-free piece of the sentence that is not a
      stopword; the tokens are a subsequence of the split pieces; a piece
      occurs among the tokens exactly as often as in the split unless it is
      a stopword, in which case never. */
  lemma SentenceToTokensFilters(sentence: string)
    ensures forall t :: t in SentenceToTokens(sentence) ==> IsWord(t) && !IsStopword(t)
    ensures IsSubsequence(SentenceToTokens(sentence), SplitAsciiWhitespace(sentence))
    ensures forall p :: multiset(SentenceToTokens(sentence))[p] ==
              if IsStopword(p) then 0 else multiset(SplitAsciiWhitespace(sentence))[p]
  {
    var pieces := SplitAsciiWhitespace(sentence);
    KeepNonStopwordsIsSubsequence(pieces);
    KeepNonStopwordsCounts(pieces);
    forall t | t in SentenceToTokens(sentence)
      ensures IsWord(t) && !IsStopword(t)
    {
      assert multiset(SentenceToTokens(sentence))[t] > 0;
      assert t in multiset(pieces);
    }
  }

  /** The frequency map `get_freq_map` returns: each distinct word to its
      number of occurrences. */
  function FreqMap(words: seq<string>): map<string, nat> {
    map w | w in words :: multiset(words)[w]
  }

  /** `Tokenizer::get_freq_map`: one pass over the words, inserting a new
      word with count 1 and incrementing the count of a word already seen. */
  method GetFreqMap(words: seq<string>) returns (freq: map<string, nat>)
    ensures freq.Keys == set w | w in words
    ensures forall w :: w in freq ==> freq[w] == multiset(words)[w] && freq[w] >= 1
    ensures freq == FreqMap(words)
  {
    freq := map[];
    for i := 0 to |words|
      invariant freq.Keys == set w | w in words[..i]
      invariant forall w :: w in freq ==> freq[w] == multiset(words[..i])[w]
    {
      var word := words[i];
      assert words[..i + 1] == words[..i] + [word];
      if word in freq {
        freq := freq[word := freq[word] + 1];
      } else {
        freq := freq[word := 1];
      }
    }
    assert words[..|words|] == words;
  }

  /** Sum of the values of a count map. */
  ghost function SumCounts(m: map<string, nat>): nat
    decreases |m|
  {
    if m == map[] then 0
    else
      var k :| k in m;
      m[k] + SumCounts(m - {k})
  }

  /** SumCounts may peel off any key, not only the one it picks itself. */
  lemma {:induction false} SumCountsRemove(m: map<string, nat>, k: string)
    requires k in m
    ensures SumCounts(m) == m[k] + SumCounts(m - {k})
    decreases |m|
  {
    var j :| j in m && SumCounts(m) == m[j] + SumCounts(m - {j});
    if j != k {
      SumCountsRemove(m - {j}, k);
      SumCountsRemove(m - {k}, j);
      assert m - {j} - {k} == m - {k} - {j};
    }
  }

  /** Appending a word changes its own count only. */
  lemma FreqMapAppend(init: seq<string>, last: string)
    ensures last in FreqMap(init + [last])
    ensures FreqMap(init + [last])[last] == (if last in init then FreqMap(init)[last] else 0) + 1
    ensures FreqMap(init + [last]) - {last} == FreqMap(init) - {last}
  {
    var words := init + [last];
    assert multiset(words) == multiset(init) + multiset{last};
    assert last in words;
  }

  /** The values of the frequency map add up to the number of words. */
  lemma {:induction false} FreqMapSum(words: seq<string>)
    ensures SumCounts(FreqMap(words)) == |words|
    decreases |words|
  {
    if words != [] {
      var last := words[|words| - 1];
      var init := words[..|words| - 1];
      assert words == init + [last];
      FreqMapSum(init);
      FreqMapAppend(init, last);
      var m, m0 := FreqMap(words), FreqMap(init);
      SumCountsRemove(m, last);
      if last in init {
        SumCountsRemove(m0, last);
      } else {
        assert m0 - {last} == m0;
      }
    }
  }

  /** Splitting words joined by single spaces gives the words back. */
  lemma {:induction false} SplitJoin(words: seq<string>)
    requires forall w :: w in words ==> IsWord(w)
    ensures SplitAsciiWhitespace(Join(words, " ")) == words
    decreases |words|
  {
    if words != [] {
      var w := words[0];
      WordLengthOfWord(w, if |words| == 1 then "" else " " + Join(words[1..], " "));
      if |words| == 1 {
        assert w[..|w|] == w;
        assert w[|w|..] == [];
      } else {
        var s := w + " " + Join(words[1..], " ");
        assert s == w + (" " + Join(words[1..], " "));
        assert s[..|w|] == w;
        assert s[|w|..] == " " + Join(words[1..], " ");
        assert s[|w|..][1..] == Join(words[1..], " ");
        SplitJoin(words[1..]);
        assert words == [w] + words[1..];
      }
    }
  }

  lemma {:induction false} WordLengthOfWord(w: string, rest: string)
    requires IsWord(w)
    requires rest == [] || IsAsciiWhitespace(rest[0])
    ensures WordLength(w + rest) == |w|
    decreases |w|
  {
    var s := w + rest;
    if |w| > 1 {
      assert s[1..] == w[1..] + rest;
      WordLengthOfWord(w[1..], rest);
    } else {
      assert s[1..] == rest;
    }
  }

  lemma {:induction false} RemoveWhitespaceAppend(a: string, b: string)
    ensures RemoveWhitespace(a + b) == RemoveWhitespace(a) + RemoveWhitespace(b)
    decreases |a|
  {
    if a != [] {
      assert (a + b)[1..] == a[1..] + b;
      RemoveWhitespaceAppend(a[1..], b);
    } else {
      assert a + b == b;
    }
  }

  lemma {:induction false} RemoveWhitespaceOfWord(w: string)
    requires forall i :: 0 <= i < |w| ==> !IsAsciiWhitespace(w[i])
    ensures RemoveWhitespace(w) == w
    decreases |w|
  {
    if w != [] {
      RemoveWhitespaceOfWord(w[1..]);
      assert w == [w[0]] + w[1..];
    }
  }

  /** A word run stops at the first whitespace character, so what follows
      that character does not change the run's length. */
  lemma {:induction false} WordLengthStopsAtWhitespace(a: string, c: char, b: string)
    requires IsAsciiWhitespace(c)
    ensures WordLength(a + [c] + b) == WordLength(a)
    decreases |a|
  {
    var s := a + [c] + b;
    if a == [] {
      assert s[0] == c;
    } else if !IsAsciiWhitespace(a[0]) {
      assert s[0] == a[0];
      assert s[1..] == a[1..] + [c] + b;
      WordLengthStopsAtWhitespace(a[1..], c, b);
    } else {
      assert s[0] == a[0];
    }
  }

  /** Every whitespace character separates: the split of `a`, a whitespace
      character and `b` is the split of `a` followed by the split of `b`.
      With SplitJoin([w]) for a single word, this fixes the split of every
      string: the pieces are exactly the maximal non-whitespace runs. */
  lemma {:induction false} SplitAtWhitespace(a: string, c: char, b: string)
    requires IsAsciiWhitespace(c)
    ensures SplitAsciiWhitespace(a + [c] + b) == SplitAsciiWhitespace(a) + SplitAsciiWhitespace(b)
    decreases |a|
  {
    var s := a + [c] + b;
    if a == [] {
      assert s[0] == c && s[1..] == b;
    } else if IsAsciiWhitespace(a[0]) {
      assert s[0] == a[0];
      assert s[1..] == a[1..] + [c] + b;
      SplitAtWhitespace(a[1..], c, b);
    } else {
      assert s[0] == a[0];
      var n := WordLength(a);
      WordLengthStopsAtWhitespace(a, c, b);
      assert s[..n] == a[..n];
      assert s[n..] == a[n..] + [c] + b;
      SplitAtWhitespace(a[n..], c, b);
    }
  }

  /** Nothing but whitespace is lost by splitting: the pieces, put back
      together, are the sentence with its whitespace removed. */
  lemma {:induction false} SplitKeepsEveryOtherCharacter(s: string)
    ensures Concat(SplitAsciiWhitespace(s)) == RemoveWhitespace(s)
    decreases |s|
  {
    if s != [] {
      if IsAsciiWhitespace(s[0]) {
        SplitKeepsEveryOtherCharacter(s[1..]);
      } else {
        var n := WordLength(s);
        assert s == s[..n] + s[n..];
        RemoveWhitespaceAppend(s[..n], s[n..]);
        RemoveWhitespaceOfWord(s[..n]);
        SplitKeepsEveryOtherCharacter(s[n..]);
        var pieces := [s[..n]] + SplitAsciiWhitespace(s[n..]);
        assert pieces[1..] == SplitAsciiWhitespace(s[n..]);
      }
    }
  }

  /** The table is matched after lower-casing: "It", "is" and "THE" are
      stopwords. */
  lemma StopwordExamples()
    ensures IsStopword("It") && IsStopword("is") && IsStopword("THE")
  {
    assert ToLowercase("It") == "it" && Keywords[21] == "it";
    assert ToLowercase("is") == "is" && Keywords[38] == "is";
    assert ToLowercase("THE") == "the" && Keywords[55] == "the";
  }







  /** A sentence whose every whitespace-separated piece is a stopword, or
      which has no pieces at all, has no tokens. */
  lemma AllStopwordsNoTokens(sentence: string)
    requires forall p :: p in SplitAsciiWhitespace(sentence) ==> IsStopword(p)
    ensures SentenceToTokens(sentence) == []
  {
    var tokens := SentenceToTokens(sentence);
    KeepNonStopwordsCounts(SplitAsciiWhitespace(sentence));
    assert multiset(tokens) == multiset{};
    assert |tokens| == |multiset(tokens)|;
  }

  /** A sentence of whitespace only splits into no pieces. */
  lemma {:induction false} WhitespaceOnlySplitsToNothing(s: string)
    requires forall i :: 0 <= i < |s| ==> IsAsciiWhitespace(s[i])
    ensures SplitAsciiWhitespace(s) == []
    decreases |s|
  {
    if s != [] {
      WhitespaceOnlySplitsToNothing(s[1..]);
    }
  }

  /** Stopwords joined by single spaces give no tokens. */
  lemma StopwordOnlySentence(words: seq<string>)
    requires forall w :: w in words ==> IsWord(w) && IsStopword(w)
    ensures SentenceToTokens(Join(words, " ")) == []
  {
    SplitJoin(words);
    AllStopwordsNoTokens(Join(words, " "));
  }
}
