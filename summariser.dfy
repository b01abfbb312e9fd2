/**
 * The extractive summariser `summarise`: keyword frequencies normalised by
 * the largest one, sentence strengths as sums of keyword weights, and the
 * three strongest sentences, strongest first, ties to the earlier sentence.
 * Weights are exact rationals (`real`) in place of floating point.
 */
module Summariser {
  import opened Annotation
  import opened Ranking

  /** The part-of-speech tags whose tokens are keywords. */
  const KeywordTags: set<string> := {"PROPN", "ADJ", "NOUN", "VERB"}

  /** The number of sentences a summary keeps at most. */
  const SummaryLength: nat := 3

  /** A keyword token: neither a stop word nor punctuation, and tagged with a keyword tag. */
  predicate IsKeyword(t: Token)
  {
    !t.isStop && !t.isPunct && t.pos in KeywordTags
  }

  /** The keyword list: the texts of the keyword tokens, in order, repeats kept. */
  function Keywords(toks: seq<Token>): seq<string>
  {
    if |toks| == 0 then []
    else Keywords(toks[..|toks| - 1]) + (if IsKeyword(toks[|toks| - 1]) then [toks[|toks| - 1].text] else [])
  }

  /** A text is in the keyword list exactly when some keyword token carries it. */
  lemma {:induction false} KeywordsFromTokens(toks: seq<Token>)
    ensures forall w :: w in Keywords(toks) <==> exists i :: 0 <= i < |toks| && IsKeyword(toks[i]) && toks[i].text == w
  {
    if |toks| > 0 {
      var init := toks[..|toks| - 1];
      KeywordsFromTokens(init);
      forall w ensures w in Keywords(toks) <==> exists i :: 0 <= i < |toks| && IsKeyword(toks[i]) && toks[i].text == w {
        if exists i :: 0 <= i < |toks| && IsKeyword(toks[i]) && toks[i].text == w {
          var i :| 0 <= i < |toks| && IsKeyword(toks[i]) && toks[i].text == w;
          if i < |toks| - 1 { assert init[i] == toks[i]; }
        }
        if w in Keywords(init) {
          var i :| 0 <= i < |init| && IsKeyword(init[i]) && init[i].text == w;
          assert toks[i] == init[i];
        }
      }
    }
  }

  /** The largest count in `counts` of a word of `ws` (`max(freq_word.values())`). */
  function MaxCount(ws: seq<string>, counts: multiset<string>): (m: nat)
    ensures forall i :: 0 <= i < |ws| ==> counts[ws[i]] <= m
    ensures |ws| > 0 ==> exists i :: 0 <= i < |ws| && counts[ws[i]] == m
  {
    if |ws| == 0 then 0
    else
      var m := MaxCount(ws[..|ws| - 1], counts);
      var c := counts[ws[|ws| - 1]];
      assert forall i :: 0 <= i < |ws| - 1 ==> ws[..|ws| - 1][i] == ws[i];
      if c > m then c else m
  }

  /** The normalised frequencies `{k: v / max_freq}` of a non-empty keyword list. */
  function Weights(kws: seq<string>): map<string, real>
    requires |kws| > 0
  {
    var counts := multiset(kws);
    var maxFreq := MaxCount(kws, counts);
    map k | k in kws :: counts[k] as real / maxFreq as real
  }

  /**
   * The weight of each keyword is its count divided by the largest count:
   * it lies in (0, 1], it is 1 exactly for the most frequent keywords, and
   * weights are ordered as counts are.
   */
  lemma WeightsNormalised(kws: seq<string>)
    requires |kws| > 0
    ensures forall k :: k in Weights(kws) <==> k in kws
    ensures forall k :: k in Weights(kws) ==> 0.0 < Weights(kws)[k] <= 1.0
    ensures forall k :: k in Weights(kws) ==> (Weights(kws)[k] == 1.0 <==> multiset(kws)[k] == MaxCount(kws, multiset(kws)))
    ensures exists k :: k in Weights(kws) && Weights(kws)[k] == 1.0
    ensures forall k, k' :: k in Weights(kws) && k' in Weights(kws) ==>
      (Weights(kws)[k] <= Weights(kws)[k'] <==> multiset(kws)[k] <= multiset(kws)[k'])
  {
    var counts := multiset(kws);
    var m := MaxCount(kws, counts);
    var w := Weights(kws);
    assert m > 0 by { assert counts[kws[0]] > 0; }
    forall k | k in w ensures 0.0 < w[k] <= 1.0 && (w[k] == 1.0 <==> counts[k] == m) {
      var i :| 0 <= i < |kws| && kws[i] == k;
      assert 0 < counts[k] <= m;
      RatioBounds(counts[k], m);
    }
    var i :| 0 <= i < |kws| && counts[kws[i]] == m;
    assert w[kws[i]] == 1.0 by { RatioBounds(counts[kws[i]], m); }
    forall k, k' | k in w && k' in w ensures w[k] <= w[k'] <==> counts[k] <= counts[k'] {
      RatioMonotone(counts[k], counts[k'], m);
    }
  }

  lemma RatioBounds(c: nat, m: nat)
    requires 0 < c <= m
    ensures 0.0 < c as real / m as real <= 1.0
    ensures c as real / m as real == 1.0 <==> c == m
  {
  }

  lemma RatioMonotone(a: nat, b: nat, m: nat)
    requires m > 0
    ensures a as real / m as real <= b as real / m as real <==> a <= b
  {
  }

  /** A sentence's strength: the sum of the weights of its tokens whose text is a keyword. */
  function Strength(toks: seq<Token>, w: map<string, real>): real
  {
    if |toks| == 0 then 0.0
    else
      var last := toks[|toks| - 1];
      Strength(toks[..|toks| - 1], w) + (if last.text in w then w[last.text] else 0.0)
  }

  /** Some token of the sentence has a keyword's text. */
  predicate Mentions(toks: seq<Token>, w: map<string, real>)
  {
    exists i :: 0 <= i < |toks| && toks[i].text in w
  }

  /** With positive weights, a sentence mentioning a keyword has positive strength. */
  lemma {:induction false} StrengthPositive(toks: seq<Token>, w: map<string, real>)
    requires forall k :: k in w ==> w[k] > 0.0
    ensures Strength(toks, w) >= 0.0
    ensures Mentions(toks, w) ==> Strength(toks, w) > 0.0
  {
    if |toks| > 0 {
      var init := toks[..|toks| - 1];
      StrengthPositive(init, w);
      if Mentions(toks, w) && toks[|toks| - 1].text !in w {
        var i :| 0 <= i < |toks| && toks[i].text in w;
        assert init[i] == toks[i];
      }
    }
  }

  /** A sentence that mentions no keyword has strength zero. */
  lemma {:induction false} NoMentionNoStrength(toks: seq<Token>, w: map<string, real>)
    ensures !Mentions(toks, w) ==> Strength(toks, w) == 0.0
  {
    if |toks| > 0 && !Mentions(toks, w) {
      var init := toks[..|toks| - 1];
      NoMentionNoStrength(init, w);
      assert !Mentions(init, w);
      assert toks[|toks| - 1].text !in w;
    }
  }

  /** Extending a prefix of a sentence by one token. */
  lemma PrefixStep(toks: seq<Token>, t: nat, w: map<string, real>)
    requires t < |toks|
    ensures Mentions(toks[..t + 1], w) <==> Mentions(toks[..t], w) || toks[t].text in w
    ensures Strength(toks[..t + 1], w) == Strength(toks[..t], w) + (if toks[t].text in w then w[toks[t].text] else 0.0)
    ensures !Mentions(toks[..t], w) ==> Strength(toks[..t], w) == 0.0
  {
    var p, q := toks[..t], toks[..t + 1];
    NoMentionNoStrength(p, w);
    assert q[..t] == p;
    if Mentions(q, w) && toks[t].text !in w {
      var k :| 0 <= k < t + 1 && q[k].text in w;
      assert p[k] == q[k];
    }
    if Mentions(p, w) {
      var k :| 0 <= k < t && p[k].text in w;
      assert q[k] == p[k];
    }
    if toks[t].text in w {
      assert q[t] == toks[t];
    }
  }

  /** `sent_strength`: the strength of every sentence that mentions a keyword, by index. */
  function StrengthMap(doc: Doc, w: map<string, real>): map<nat, real>
  {
    map i | 0 <= i < |doc| && Mentions(doc[i].tokens, w) :: Strength(doc[i].tokens, w)
  }

  /** The keys of `sent_strength` in insertion order: the mentioning sentences, ascending. */
  function Candidates(doc: Doc, w: map<string, real>): seq<nat>
  {
    if |doc| == 0 then []
    else Candidates(doc[..|doc| - 1], w) + (if Mentions(doc[|doc| - 1].tokens, w) then [|doc| - 1] else [])
  }

  /** Extending a prefix of the document by one sentence. */
  lemma CandidatesStep(doc: Doc, s: nat, w: map<string, real>)
    requires s < |doc|
    ensures Candidates(doc[..s + 1], w) == Candidates(doc[..s], w) + (if Mentions(doc[s].tokens, w) then [s] else [])
  {
    assert doc[..s + 1][..s] == doc[..s];
  }

  /** The candidates are the mentioning sentences, each once, in document order. */
  lemma {:induction false} CandidatesSpec(doc: Doc, w: map<string, real>)
    ensures StrictlyIncreasing(Candidates(doc, w))
    ensures forall k :: 0 <= k < |Candidates(doc, w)| ==> Candidates(doc, w)[k] < |doc|
    ensures forall i :: i in Candidates(doc, w) <==> 0 <= i < |doc| && Mentions(doc[i].tokens, w)
  {
    if |doc| > 0 {
      var init := doc[..|doc| - 1];
      CandidatesSpec(init, w);
      forall i ensures i in Candidates(doc, w) <==> 0 <= i < |doc| && Mentions(doc[i].tokens, w) {
        if 0 <= i < |doc| - 1 { assert init[i] == doc[i]; }
      }
    }
  }

  /** The weights of the document's keywords; empty when it has none. */
  function DocWeights(doc: Doc): map<string, real>
  {
    var kws := Keywords(Tokens(doc));
    if |kws| == 0 then map[] else Weights(kws)
  }

  /**
   * The weighted texts are exactly the texts of the document's keyword
   * tokens, and every weight lies in (0, 1].
   */
  lemma {:induction false} DocWeightsSpec(doc: Doc)
    ensures forall k :: k in DocWeights(doc) <==>
      exists i, j :: 0 <= i < |doc| && 0 <= j < |doc[i].tokens| && IsKeyword(doc[i].tokens[j]) && doc[i].tokens[j].text == k
    ensures forall k :: k in DocWeights(doc) ==> 0.0 < DocWeights(doc)[k] <= 1.0
  {
    var toks := Tokens(doc);
    var kws := Keywords(toks);
    KeywordsFromTokens(toks);
    TokensOfSentences(doc);
    if |kws| > 0 {
      WeightsNormalised(kws);
    }
    forall k ensures k in DocWeights(doc) <==>
      exists i, j :: 0 <= i < |doc| && 0 <= j < |doc[i].tokens| && IsKeyword(doc[i].tokens[j]) && doc[i].tokens[j].text == k
    {
      if k in DocWeights(doc) {
        var p :| 0 <= p < |toks| && IsKeyword(toks[p]) && toks[p].text == k;
        assert toks[p] in toks;
      }
      if exists i, j :: 0 <= i < |doc| && 0 <= j < |doc[i].tokens| && IsKeyword(doc[i].tokens[j]) && doc[i].tokens[j].text == k {
        var i, j :| 0 <= i < |doc| && 0 <= j < |doc[i].tokens| && IsKeyword(doc[i].tokens[j]) && doc[i].tokens[j].text == k;
        var t := doc[i].tokens[j];
        assert t in toks;
        var p :| 0 <= p < |toks| && toks[p] == t;
        assert k in kws;
      }
    }
  }

  /** The indices of the summary sentences, strongest first. */
  function SummaryIndices(doc: Doc): (r: seq<nat>)
    ensures forall k :: 0 <= k < |r| ==> r[k] < |doc|
  {
    var kws := Keywords(Tokens(doc));
    if |kws| == 0 then []
    else
      var w := DocWeights(doc);
      var cands := Candidates(doc, w);
      CandidatesSpec(doc, w);
      NLargestPicks(SummaryLength, cands, StrengthMap(doc, w));
      NLargest(SummaryLength, cands, StrengthMap(doc, w))
  }

  /** The summary: the texts of the summary sentences, strongest first. */
  function Summary(doc: Doc): seq<string>
  {
    var ix := SummaryIndices(doc);
    seq(|ix|, k requires 0 <= k < |ix| => doc[ix[k]].text)
  }

  /**
   * The `sent_strength` loop of `summarise`: for every token of every
   * sentence whose text is a keyword, adds the keyword's weight to the
   * sentence's entry, creating the entry (and so fixing its place in the
   * insertion order) on the first such token.
   */
  method SentenceStrengths(doc: Doc, weights: map<string, real>) returns (strength: map<nat, real>, order: seq<nat>)
    ensures strength == StrengthMap(doc, weights)
    ensures order == Candidates(doc, weights)
  {
    strength, order := map[], [];
    var s := 0;
    while s < |doc|
      invariant 0 <= s <= |doc|
      invariant forall j :: j in strength <==> 0 <= j < s && Mentions(doc[j].tokens, weights)
      invariant forall j :: j in strength ==> strength[j] == Strength(doc[j].tokens, weights)
      invariant order == Candidates(doc[..s], weights)
    {
      strength, order := AddSentence(strength, order, s, doc[s].tokens, weights);
      CandidatesStep(doc, s, weights);
      s := s + 1;
    }
    assert doc[..s] == doc;
  }

  /**
   * The inner loop of the `sent_strength` pass over one sentence `s`: its
   * entry appears, after the existing ones, exactly when one of its tokens
   * is a keyword, and then holds the sentence's strength.
   */
  method AddSentence(strength0: map<nat, real>, order0: seq<nat>, s: nat, sent: seq<Token>, weights: map<string, real>)
    returns (strength: map<nat, real>, order: seq<nat>)
    requires s !in strength0
    ensures strength == if Mentions(sent, weights) then strength0[s := Strength(sent, weights)] else strength0
    ensures order == order0 + (if Mentions(sent, weights) then [s] else [])
  {
    strength, order := strength0, order0;
    var t := 0;
    while t < |sent|
      invariant 0 <= t <= |sent|
      invariant strength == if Mentions(sent[..t], weights) then strength0[s := Strength(sent[..t], weights)] else strength0
      invariant order == order0 + (if Mentions(sent[..t], weights) then [s] else [])
    {
      var token := sent[t];
      PrefixStep(sent, t, weights);
      if token.text in weights {
        if s !in strength {
          order := order + [s];
        }
        strength := strength[s := (if s in strength then strength[s] else 0.0) + weights[token.text]];
      }
      t := t + 1;
    }
    assert sent[..t] == sent;
  }

  /** The `keywords` loop of `summarise`: the texts of the keyword tokens, in order. */
  method CollectKeywords(toks: seq<Token>) returns (keywords: seq<string>)
    ensures keywords == Keywords(toks)
  {
    keywords := [];
    var i := 0;
    while i < |toks|
      invariant 0 <= i <= |toks|
      invariant keywords == Keywords(toks[..i])
    {
      if IsKeyword(toks[i]) {
        keywords := keywords + [toks[i].text];
      }
      assert toks[..i + 1][..i] == toks[..i];
      i := i + 1;
    }
    assert toks[..i] == toks;
  }

  /**
   * `summarise`: collects the keyword list, stops early with no summary when
   * it is empty, normalises the counts, accumulates `sent_strength` sentence
   * by sentence and token by token (a map plus the order in which its keys
   * were inserted), and keeps the texts of the three strongest sentences.
   */
  method Summarise(doc: Doc) returns (summaries: seq<string>)
    ensures summaries == Summary(doc)
  {
    var keywords := CollectKeywords(Tokens(doc));
    if |keywords| == 0 {
      assert SummaryIndices(doc) == [];
      return [];
    }
    var weights := Weights(keywords);
    assert weights == DocWeights(doc);

    var strength, order := SentenceStrengths(doc, weights);
    CandidatesSpec(doc, weights);
    var keySentences := NLargest(SummaryLength, order, strength);
    assert keySentences == SummaryIndices(doc);
    summaries := seq(|keySentences|, k requires 0 <= k < |keySentences| => doc[keySentences[k]].text);
  }

  /**
   * Sentence `a` ranks above sentence `b` in the ranking the summary is
   * drawn from: both are keys of `sent_strength`, and `a` is stronger, or as
   * strong and earlier.
   */
  predicate StrongerAt(doc: Doc, a: nat, b: nat)
  {
    Outranks(StrengthMap(doc, DocWeights(doc)), a, b)
  }

  /** The document has a keyword exactly when some sentence has a keyword token. */
  lemma KeywordsEmptyIff(doc: Doc)
    ensures |Keywords(Tokens(doc))| == 0 <==>
      forall i, j :: 0 <= i < |doc| && 0 <= j < |doc[i].tokens| ==> !IsKeyword(doc[i].tokens[j])
  {
    var toks := Tokens(doc);
    if i, j :| 0 <= i < |doc| && 0 <= j < |doc[i].tokens| && IsKeyword(doc[i].tokens[j]) {
      var t := doc[i].tokens[j];
      assert t in toks by { TokensOfSentences(doc); }
      var p :| 0 <= p < |toks| && toks[p] == t;
      assert t.text in Keywords(toks) by { KeywordsFromTokens(toks); }
    }
    if |Keywords(toks)| > 0 {
      var k := Keywords(toks)[0];
      assert k in Keywords(toks);
      var p :| 0 <= p < |toks| && IsKeyword(toks[p]) && toks[p].text == k by { KeywordsFromTokens(toks); }
      assert toks[p] in toks;
      var i, j :| 0 <= i < |doc| && 0 <= j < |doc[i].tokens| && doc[i].tokens[j] == toks[p] by { TokensOfSentences(doc); }
    }
  }

  /** A document with a keyword has a sentence mentioning it. */
  lemma KeywordMentioned(doc: Doc) returns (i: nat)
    requires |Keywords(Tokens(doc))| > 0
    ensures i < |doc| && Mentions(doc[i].tokens, DocWeights(doc))
  {
    var toks := Tokens(doc);
    var w := DocWeights(doc);
    var k := Keywords(toks)[0];
    assert k in w by { WeightsNormalised(Keywords(toks)); }
    var j;
    i, j :| 0 <= i < |doc| && 0 <= j < |doc[i].tokens| && doc[i].tokens[j].text == k by { DocWeightsSpec(doc); }
  }

  /** A document with a keyword has a non-empty summary. */
  lemma KeywordsGiveSummary(doc: Doc)
    requires |Keywords(Tokens(doc))| > 0
    ensures |SummaryIndices(doc)| > 0
  {
    var i := KeywordMentioned(doc);
    var w := DocWeights(doc);
    var cands := Candidates(doc, w);
    CandidatesSpec(doc, w);
    assert i in cands;
    NLargestPicks(SummaryLength, cands, StrengthMap(doc, w));
  }

  /** The summary is empty exactly when the document has no keyword token. */
  lemma SummaryEmptyIff(doc: Doc)
    ensures Summary(doc) == [] <==>
      forall i, j :: 0 <= i < |doc| && 0 <= j < |doc[i].tokens| ==> !IsKeyword(doc[i].tokens[j])
  {
    KeywordsEmptyIff(doc);
    if |Keywords(Tokens(doc))| > 0 {
      KeywordsGiveSummary(doc);
      assert |Summary(doc)| > 0;
    }
  }

  /**
   * A summary holds at most three sentences, each containing a token whose
   * text is a keyword, so each has a positive strength.
   */
  lemma SummaryMentionsKeywords(doc: Doc)
    ensures |Summary(doc)| == |SummaryIndices(doc)| <= SummaryLength
    ensures forall k :: 0 <= k < |SummaryIndices(doc)| ==>
      Mentions(doc[SummaryIndices(doc)[k]].tokens, DocWeights(doc)) &&
      Strength(doc[SummaryIndices(doc)[k]].tokens, DocWeights(doc)) > 0.0
  {
    var ix := SummaryIndices(doc);
    var w := DocWeights(doc);
    if |Keywords(Tokens(doc))| > 0 {
      var cands := Candidates(doc, w);
      CandidatesSpec(doc, w);
      NLargestPicks(SummaryLength, cands, StrengthMap(doc, w));
      DocWeightsSpec(doc);
      forall k | 0 <= k < |ix| ensures Mentions(doc[ix[k]].tokens, w) && Strength(doc[ix[k]].tokens, w) > 0.0 {
        assert ix[k] in cands;
        StrengthPositive(doc[ix[k]].tokens, w);
      }
    }
  }

  /** The summary comes strongest first; equally strong sentences keep document order. */
  lemma SummaryRanked(doc: Doc)
    ensures forall a, b :: 0 <= a < b < |SummaryIndices(doc)| ==> StrongerAt(doc, SummaryIndices(doc)[a], SummaryIndices(doc)[b])
  {
    var ix := SummaryIndices(doc);
    var w := DocWeights(doc);
    if |Keywords(Tokens(doc))| > 0 {
      var cands := Candidates(doc, w);
      var key := StrengthMap(doc, w);
      CandidatesSpec(doc, w);
      NLargestRanked(SummaryLength, cands, key);
      forall a, b | 0 <= a < b < |ix| ensures StrongerAt(doc, ix[a], ix[b]) {
        assert Outranks(key, ix[a], ix[b]);
      }
    }
  }

  /**
   * No sentence left out of the summary outranks a chosen one, and a
   * sentence mentioning a keyword is left out only when all three places
   * are taken.
   */
  lemma SummaryComplete(doc: Doc)
    ensures forall i :: 0 <= i < |doc| && Mentions(doc[i].tokens, DocWeights(doc)) && i !in SummaryIndices(doc) ==>
      |SummaryIndices(doc)| == SummaryLength &&
      forall a :: 0 <= a < |SummaryIndices(doc)| ==> StrongerAt(doc, SummaryIndices(doc)[a], i)
  {
    var ix := SummaryIndices(doc);
    var w := DocWeights(doc);
    if |Keywords(Tokens(doc))| > 0 {
      var cands := Candidates(doc, w);
      var key := StrengthMap(doc, w);
      CandidatesSpec(doc, w);
      NLargestPicks(SummaryLength, cands, key);
      NLargestComplete(SummaryLength, cands, key);
      forall i | 0 <= i < |doc| && Mentions(doc[i].tokens, w) && i !in ix
        ensures |ix| == SummaryLength && forall a :: 0 <= a < |ix| ==> StrongerAt(doc, ix[a], i)
      {
        var k :| 0 <= k < |cands| && cands[k] == i;
        if |cands| <= SummaryLength {
          NLargestTakesAll(SummaryLength, cands, key);
        }
        forall a | 0 <= a < |ix| ensures StrongerAt(doc, ix[a], i) {
          assert Outranks(key, ix[a], cands[k]);
        }
      }
    } else {
      forall i | 0 <= i < |doc| ensures !Mentions(doc[i].tokens, w) {
        assert w == map[];
      }
    }
  }
}
