/** The text half of `sentiment_analysis` (app.py:57-62): normalize,
    tokenize, lemmatize, drop stop words, join with single spaces.

    `word_tokenize` and the WordNet lemmatizer are library calls and are
    parameters here; the stop-word set loaded at start-up (app.py:17-21) is
    given. The vectorizer call (app.py:63) is not part of this model. */
module Sentiment {
  import opened Chars
  import opened Words
  import opened TextNormalizer

  /** `t` is kept by the stop-word filter. */
  predicate Kept(t: string, stopWords: set<string>) {
    Lower(t) !in stopWords
  }

  /** The list comprehension at app.py:61. */
  function FilterStopWords(tokens: seq<string>, stopWords: set<string>): (r: seq<string>)
    ensures |r| <= |tokens|
    ensures forall t :: t in r <==> t in tokens && Kept(t, stopWords)
    decreases |tokens|
  {
    if tokens == [] then []
    else if Kept(tokens[0], stopWords) then [tokens[0]] + FilterStopWords(tokens[1..], stopWords)
    else FilterStopWords(tokens[1..], stopWords)
  }

  /** `a` is `b` with some elements left out, the rest in the same order. */
  predicate IsSubsequence(a: seq<string>, b: seq<string>)
    decreases |b|
  {
    if a == [] then true
    else if b == [] then false
    else if a[0] == b[0] then IsSubsequence(a[1..], b[1..])
    else IsSubsequence(a, b[1..])
  }

  /** The filter keeps tokens in their original order. */
  lemma {:induction false} FilterIsSubsequence(tokens: seq<string>, stopWords: set<string>)
    ensures IsSubsequence(FilterStopWords(tokens, stopWords), tokens)
    decreases |tokens|
  {
    if tokens != [] {
      FilterIsSubsequence(tokens[1..], stopWords);
      var rest := FilterStopWords(tokens[1..], stopWords);
      if Kept(tokens[0], stopWords) {
        assert ([tokens[0]] + rest)[1..] == rest;
      } else {
        SubsequenceSkip(rest, tokens);
      }
    }
  }

  /** A subsequence of a list's tail is a subsequence of the list. */
  lemma {:induction false} SubsequenceSkip(a: seq<string>, b: seq<string>)
    requires b != [] && IsSubsequence(a, b[1..])
    ensures IsSubsequence(a, b)
    decreases |b|, 0
  {
    if a != [] && a[0] == b[0] {
      SubsequenceTail(a, b[1..]);
    }
  }

  /** Dropping the first element of a subsequence keeps it a subsequence. */
  lemma {:induction false} SubsequenceTail(a: seq<string>, b: seq<string>)
    requires a != [] && IsSubsequence(a, b)
    ensures IsSubsequence(a[1..], b)
    decreases |b|, 1
  {
    if b != [] {
      if a[0] == b[0] {
        SubsequenceSkip(a[1..], b);
      } else {
        SubsequenceTail(a, b[1..]);
        SubsequenceSkip(a[1..], b);
      }
    }
  }

  /** The filter drops every occurrence of a stop word and keeps every
      occurrence of any other token. */
  lemma {:induction false} FilterCounts(tokens: seq<string>, stopWords: set<string>, t: string)
    ensures multiset(FilterStopWords(tokens, stopWords))[t] ==
      if Kept(t, stopWords) then multiset(tokens)[t] else 0
    decreases |tokens|
  {
    if tokens != [] {
      FilterCounts(tokens[1..], stopWords, t);
      assert tokens == [tokens[0]] + tokens[1..];
    }
  }

  /** Filtering works token by token. */
  lemma {:induction false} FilterAppend(a: seq<string>, b: seq<string>, stopWords: set<string>)
    ensures FilterStopWords(a + b, stopWords) == FilterStopWords(a, stopWords) + FilterStopWords(b, stopWords)
    decreases |a|
  {
    if a == [] {
      assert a + b == b;
    } else {
      assert (a + b)[0] == a[0];
      assert (a + b)[1..] == a[1..] + b;
      FilterAppend(a[1..], b, stopWords);
    }
  }

  /** Filtering a filtered list changes nothing. */
  lemma {:induction false} FilterIdempotent(tokens: seq<string>, stopWords: set<string>)
    ensures FilterStopWords(FilterStopWords(tokens, stopWords), stopWords) == FilterStopWords(tokens, stopWords)
    decreases |tokens|
  {
    if tokens != [] {
      FilterIdempotent(tokens[1..], stopWords);
      var rest := FilterStopWords(tokens[1..], stopWords);
      if Kept(tokens[0], stopWords) {
        assert ([tokens[0]] + rest)[0] == tokens[0];
        assert ([tokens[0]] + rest)[1..] == rest;
      }
    }
  }

  /** `lemmatize_tokens` (app.py:38-39). */
  function LemmatizeTokens(lemmatize: string -> string, tokens: seq<string>): (r: seq<string>)
    ensures |r| == |tokens|
    ensures forall k | 0 <= k < |tokens| :: r[k] == lemmatize(tokens[k])
  {
    seq(|tokens|, k requires 0 <= k < |tokens| => lemmatize(tokens[k]))
  }

  /** The text `sentiment_analysis` hands to the vectorizer (app.py:58-62). */
  function AnalysisText(
    demojize: string -> string, tokenize: string -> seq<string>, lemmatize: string -> string,
    stopWords: set<string>, text: string): string
  {
    Join(FilterStopWords(LemmatizeTokens(lemmatize, tokenize(Normalize(demojize, text))), stopWords))
  }

  /** When tokens contain no whitespace, the joined text splits back into
      exactly the kept tokens. */
  lemma JoinKeptSplits(tokens: seq<string>, stopWords: set<string>)
    requires forall k | 0 <= k < |tokens| :: IsToken(tokens[k])
    ensures Split(Join(FilterStopWords(tokens, stopWords))) == FilterStopWords(tokens, stopWords)
  {
    var r := FilterStopWords(tokens, stopWords);
    forall k | 0 <= k < |r| ensures IsToken(r[k]) {
      assert r[k] in r;
    }
    SplitJoin(r);
  }

  /** Empty input gives empty text, provided the emoji step and the tokenizer
      map empty text to empty results. */
  lemma AnalysisTextEmpty(
    demojize: string -> string, tokenize: string -> seq<string>, lemmatize: string -> string,
    stopWords: set<string>)
    requires demojize("") == "" && tokenize("") == []
    ensures AnalysisText(demojize, tokenize, lemmatize, stopWords, "") == ""
  {
    NormalizeEmpty(demojize);
  }
}
