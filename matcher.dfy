/**
 * Locating the sentence that opens each goal's discussion: the sentence
 * matcher `search_sentence` and the per-goal locator `find_indices`.
 */
module Matcher {
  import opened Wrappers
  import opened Strings
  import opened Annotation

  /** One goal query: the keyword arguments `required`, `optional` and `stoppers`. */
  datatype Query = Query(required: seq<string>, optional: seq<string>, stoppers: seq<string>)

  /** Sentences of this many tokens or more never qualify. */
  const MaxSentenceTokens: nat := 100

  /** The lower-cased token texts of a sentence (`st` in the source). */
  function LoweredTexts(sent: Sentence): seq<string>
  {
    seq(|sent.tokens|, i requires 0 <= i < |sent.tokens| => Lower(sent.tokens[i].text))
  }

  /**
   * The four conditions of the matcher: every required term, at least one
   * optional term and no stopper among the lower-cased token texts (exact
   * equality with a whole token, not a substring), and fewer than 100 tokens.
   */
  predicate Qualifies(sent: Sentence, q: Query)
  {
    var st := LoweredTexts(sent);
    && (forall w :: w in q.required ==> w in st)
    && (exists m :: m in q.optional && m in st)
    && (forall s :: s in q.stoppers ==> s !in st)
    && |st| < MaxSentenceTokens
  }

  /** The least index of a qualifying sentence, if there is one. */
  function FirstMatch(doc: Doc, q: Query): (r: Option<nat>)
    ensures r.Some? ==> r.value < |doc| && Qualifies(doc[r.value], q)
    ensures r.Some? ==> forall j :: 0 <= j < r.value ==> !Qualifies(doc[j], q)
    ensures r.None? <==> forall j :: 0 <= j < |doc| ==> !Qualifies(doc[j], q)
    decreases |doc|
  {
    if |doc| == 0 then None
    else if Qualifies(doc[0], q) then Some(0)
    else match FirstMatch(doc[1..], q)
      case None => None
      case Some(i) => Some(i + 1)
  }

  /** `search_sentence`: a first-hit scan over the sentences, `None` when it falls through. */
  method SearchSentence(doc: Doc, q: Query) returns (r: Option<nat>)
    ensures r == FirstMatch(doc, q)
  {
    var i := 0;
    while i < |doc|
      invariant 0 <= i <= |doc|
      invariant forall j :: 0 <= j < i ==> !Qualifies(doc[j], q)
    {
      if Qualifies(doc[i], q) {
        return Some(i);
      }
      i := i + 1;
    }
    return None;
  }

  /** A query with no optional term matches nothing; neither does an empty document. */
  lemma NothingToMatch(doc: Doc, q: Query)
    requires |doc| == 0 || |q.optional| == 0
    ensures FirstMatch(doc, q) == None
  {
    if |doc| > 0 {
      forall j | 0 <= j < |doc| ensures !Qualifies(doc[j], q) {
        assert forall m :: m !in q.optional;
      }
    }
  }

  /**
   * Term membership is against lower-cased token texts, so a required or
   * optional term with an upper-case letter can never be met: a query whose
   * every optional term has one matches nothing.
   */
  lemma {:induction false} UpperCaseTermsNeverMatch(doc: Doc, q: Query)
    requires forall m :: m in q.optional ==> exists k :: 0 <= k < |m| && IsUpper(m[k])
    ensures FirstMatch(doc, q) == None
  {
    forall j | 0 <= j < |doc| ensures !Qualifies(doc[j], q) {
      var st := LoweredTexts(doc[j]);
      forall m | m in q.optional ensures m !in st {
        var k :| 0 <= k < |m| && IsUpper(m[k]);
      }
    }
  }

  /** Two qualifying sentences at indices 2 and 5: the matcher answers 2. */
  lemma FirstHitWins(doc: Doc, q: Query)
    requires |doc| > 5 && Qualifies(doc[2], q) && Qualifies(doc[5], q)
    requires !Qualifies(doc[0], q) && !Qualifies(doc[1], q)
    ensures FirstMatch(doc, q) == Some(2)
  {
  }

  // ---------------------------------------------------------------------------
  // find_indices
  // ---------------------------------------------------------------------------

  /** The goal catalog (`queries.json`): goal keys `sdg_1` .. `sdg_17` to queries. */
  type Catalog = map<string, Query>

  /** The number of goals the locator looks up. */
  const GoalCount: nat := 17

  /** The catalog key of goal `k`: `f'sdg_{k}'`. */
  function GoalKey(k: nat): string
  {
    "sdg_" + NatToString(k)
  }

  /** Distinct goals have distinct keys. */
  lemma GoalKeyInjective(a: nat, b: nat)
    requires GoalKey(a) == GoalKey(b)
    ensures a == b
  {
    assert NatToString(a) == GoalKey(a)[4..] == GoalKey(b)[4..] == NatToString(b);
    NatToStringInjective(a, b);
  }

  /** Every goal 1..17 has an entry, so the lookups of the locator succeed. */
  predicate HasAllGoals(catalog: Catalog)
  {
    forall k :: 1 <= k <= GoalCount ==> GoalKey(k) in catalog
  }

  /**
   * The match positions, one per goal in goal order: position `k` answers
   * the query of goal `k + 1`, and a present position is a qualifying
   * sentence of `doc`.
   */
  function Locate(doc: Doc, catalog: Catalog): (r: seq<Option<nat>>)
    requires HasAllGoals(catalog)
    ensures |r| == GoalCount
    ensures forall k :: 0 <= k < GoalCount && r[k].Some? ==>
      r[k].value < |doc| && Qualifies(doc[r[k].value], catalog[GoalKey(k + 1)])
  {
    seq(GoalCount, k requires 0 <= k < GoalCount => FirstMatch(doc, catalog[GoalKey(k + 1)]))
  }

  /**
   * `find_indices`: runs the matcher for goals 1..17 in order and appends
   * each answer; a goal missing from the catalog raises `KeyError` with its key.
   */
  method FindIndices(doc: Doc, catalog: Catalog) returns (r: Result<seq<Option<nat>>, string>)
    ensures r.Success? <==> HasAllGoals(catalog)
    ensures r.Success? ==> r.value == Locate(doc, catalog)
    ensures r.Failure? ==> exists k :: 1 <= k <= GoalCount && r.error == GoalKey(k) && GoalKey(k) !in catalog &&
                                       forall j :: 1 <= j < k ==> GoalKey(j) in catalog
  {
    var indices: seq<Option<nat>> := [];
    var sdg := 1;
    while sdg <= GoalCount
      invariant 1 <= sdg <= GoalCount + 1
      invariant forall j :: 1 <= j < sdg ==> GoalKey(j) in catalog
      invariant |indices| == sdg - 1
      invariant forall k :: 0 <= k < sdg - 1 ==> indices[k] == FirstMatch(doc, catalog[GoalKey(k + 1)])
    {
      var key := GoalKey(sdg);
      if key !in catalog {
        assert !HasAllGoals(catalog);
        assert 1 <= sdg <= GoalCount && key == GoalKey(sdg) && forall j :: 1 <= j < sdg ==> GoalKey(j) in catalog;
        return Failure(key);
      }
      var index := SearchSentence(doc, catalog[key]);
      ghost var prev := indices;
      indices := indices + [index];
      forall j | 1 <= j <= sdg ensures GoalKey(j) in catalog {
        if j == sdg {
          assert GoalKey(j) == key;
        }
      }
      forall k | 0 <= k < sdg ensures indices[k] == FirstMatch(doc, catalog[GoalKey(k + 1)]) {
        if k < sdg - 1 {
          assert indices[k] == prev[k];
        }
      }
      sdg := sdg + 1;
    }
    assert indices == Locate(doc, catalog);
    return Success(indices);
  }
}
