/**
 * The driver `get_insights`: annotates the text, locates each goal's opening
 * sentence, and for every goal 1..16 that was located appends a window of
 * sentences to a running accumulator, re-annotates the joined accumulator
 * and stores the summary of that re-annotated text under the goal's label.
 *
 * The annotator is a parameter (`annotate`), as is the goal catalog. Two
 * traits of the source are kept as written: the accumulator is never
 * cleared between goals, and after the first located goal the windows are
 * read from the re-annotated accumulator rather than the original document.
 */
module Insights {
  import opened Wrappers
  import opened Strings
  import opened Annotation
  import opened Matcher
  import opened Summariser

  /** The number of sentences after a goal's opening one that its window keeps by default. */
  const WindowLength: nat := 50

  /** The label of goal `k`: `f'Goal {k}'`. */
  function Label(k: nat): string
  {
    "Goal " + NatToString(k)
  }

  /** Distinct goals have distinct labels. */
  lemma LabelInjective(a: nat, b: nat)
    requires Label(a) == Label(b)
    ensures a == b
  {
    assert NatToString(a) == Label(a)[5..] == Label(b)[5..] == NatToString(b);
    NatToStringInjective(a, b);
  }

  /**
   * The last sentence of a goal's window: the next goal's opening sentence
   * when that one was located after `start`, otherwise `start + 50`.
   */
  function WindowEnd(start: nat, next: Option<nat>): (end: nat)
    ensures start < end
    ensures end == start + WindowLength || next == Some(end)
  {
    if next.Some? && start < next.value then next.value else start + WindowLength
  }

  /** The texts of the sentences of `doc`, in order. */
  function Texts(doc: Doc): (r: seq<string>)
    ensures |r| == |doc|
  {
    seq(|doc|, i requires 0 <= i < |doc| => doc[i].text)
  }

  /**
   * The window as the enumeration builds it: the texts of the sentences
   * whose index `idx` satisfies `start <= idx <= end`, in document order.
   */
  function Selected(doc: Doc, start: nat, end: nat): seq<string>
  {
    if |doc| == 0 then []
    else
      var idx := |doc| - 1;
      Selected(doc[..idx], start, end) + (if start <= idx <= end then [doc[idx].text] else [])
  }

  /** The smaller of two naturals. */
  function Min(a: nat, b: nat): nat
  {
    if a <= b then a else b
  }

  /**
   * The window is the slice of sentences from `start` through `end`, cut
   * short by the end of the document (and empty when `start` is past it).
   */
  lemma {:induction false} SelectedIsSlice(doc: Doc, start: nat, end: nat)
    requires start <= end
    ensures Selected(doc, start, end) == Texts(doc[Min(start, |doc|)..Min(end + 1, |doc|)])
  {
    if |doc| > 0 {
      var idx := |doc| - 1;
      var init := doc[..idx];
      SelectedIsSlice(init, start, end);
      SelectedLast(doc, start, end);
      if start <= idx <= end {
        TextsSliceAppend(doc, start);
      } else if idx < start {
        assert doc[Min(start, |doc|)..Min(end + 1, |doc|)] == [];
        assert init[Min(start, idx)..Min(end + 1, idx)] == [];
      } else {
        assert doc[Min(start, |doc|)..Min(end + 1, |doc|)] == init[Min(start, idx)..Min(end + 1, idx)];
      }
    }
  }

  /** `Selected` unfolded once: the earlier sentences' window, then the last sentence when it is inside. */
  lemma SelectedLast(doc: Doc, start: nat, end: nat)
    requires |doc| > 0
    ensures Selected(doc, start, end) ==
      Selected(doc[..|doc| - 1], start, end) + (if start <= |doc| - 1 <= end then [doc[|doc| - 1].text] else [])
  {
  }

  /** A slice running to the last sentence is the slice before it plus that sentence. */
  lemma TextsSliceAppend(doc: Doc, lo: nat)
    requires lo < |doc|
    ensures Texts(doc[lo..]) == Texts(doc[..|doc| - 1][lo..]) + [doc[|doc| - 1].text]
  {
    assert doc[lo..] == doc[..|doc| - 1][lo..] + [doc[|doc| - 1]];
    TextsAppend(doc[..|doc| - 1][lo..], doc[|doc| - 1]);
  }

  lemma TextsAppend(d: Doc, s: Sentence)
    ensures Texts(d + [s]) == Texts(d) + [s.text]
  {
  }

  /** The loop state of `get_insights`: the current document, the accumulator and the result so far. */
  datatype State = State(doc: Doc, sentences: seq<string>, insights: map<string, seq<string>>)

  /**
   * One iteration, for goal `i + 1`: skipped when the goal was not located;
   * otherwise the window is appended to the accumulator, the joined
   * accumulator is re-annotated and its summary stored under the label.
   * The summariser is a parameter here so that the fold's lemmas do not
   * depend on how a summary is computed; `GoalInsights` fixes it to `Summary`.
   */
  function Step(st: State, indices: seq<Option<nat>>, i: nat, annotate: string -> Doc, summarise: Doc -> seq<string>): State
    requires i + 1 < |indices|
  {
    match indices[i]
    case None => st
    case Some(start) =>
      var sentences := st.sentences + Selected(st.doc, start, WindowEnd(start, indices[i + 1]));
      var doc := annotate(Join(sentences, " "));
      State(doc, sentences, st.insights[Label(i + 1) := summarise(doc)])
  }

  /** The state after the first `n` iterations, starting from the annotated input `doc0`. */
  function Run(doc0: Doc, indices: seq<Option<nat>>, annotate: string -> Doc, summarise: Doc -> seq<string>, n: nat): State
    requires n < |indices|
  {
    if n == 0 then State(doc0, [], map[])
    else Step(Run(doc0, indices, annotate, summarise, n - 1), indices, n - 1, annotate, summarise)
  }

  /** The result of `get_insights` on a text, for a catalog with every goal. */
  function GoalInsights(text: string, annotate: string -> Doc, catalog: Catalog): map<string, seq<string>>
    requires HasAllGoals(catalog)
  {
    var doc := annotate(text);
    Run(doc, Locate(doc, catalog), annotate, Summary, GoalCount - 1).insights
  }

  /**
   * The inner loop of `get_insights`: enumerates the sentences of `doc` and
   * appends the text of each one whose index lies in `start..end`.
   */
  method AppendWindow(sentences: seq<string>, doc: Doc, start: nat, end: nat) returns (r: seq<string>)
    ensures r == sentences + Selected(doc, start, end)
  {
    r := sentences;
    var idx := 0;
    while idx < |doc|
      invariant 0 <= idx <= |doc|
      invariant r == sentences + Selected(doc[..idx], start, end)
    {
      assert doc[..idx + 1][..idx] == doc[..idx];
      if start <= idx <= end {
        r := r + [doc[idx].text];
      }
      idx := idx + 1;
    }
    assert doc[..|doc|] == doc;
  }

  /**
   * `get_insights`: a catalog without some goal raises `KeyError` (inside
   * `find_indices`) with the first missing key; otherwise the result is the
   * one the loop specification describes.
   */
  method GetInsights(text: string, annotate: string -> Doc, catalog: Catalog)
    returns (r: Result<map<string, seq<string>>, string>)
    ensures r.Success? <==> HasAllGoals(catalog)
    ensures r.Success? ==> r.value == GoalInsights(text, annotate, catalog)
    ensures r.Failure? ==> exists k :: 1 <= k <= GoalCount && r.error == GoalKey(k) && GoalKey(k) !in catalog &&
                                       forall j :: 1 <= j < k ==> GoalKey(j) in catalog
  {
    var doc0 := annotate(text);
    var found := FindIndices(doc0, catalog);
    if found.Failure? {
      return Failure(found.error);
    }
    var indices := found.value;
    var doc := doc0;
    var insights: map<string, seq<string>> := map[];
    var sentences: seq<string> := [];
    var i := 0;
    while i < |indices| - 1
      invariant 0 <= i <= |indices| - 1
      invariant State(doc, sentences, insights) == Run(doc0, indices, annotate, Summary, i)
    {
      var goalLabel := Label(i + 1);
      if indices[i].Some? {
        var start := indices[i].value;
        var end := if indices[i + 1].Some? && start < indices[i + 1].value then indices[i + 1].value else start + WindowLength;
        assert end == WindowEnd(start, indices[i + 1]);
        sentences := AppendWindow(sentences, doc, start, end);
        doc := annotate(Join(sentences, " "));
        var summary := Summarise(doc);
        insights := insights[goalLabel := summary];
      }
      assert State(doc, sentences, insights) == Step(Run(doc0, indices, annotate, Summary, i), indices, i, annotate, Summary);
      i := i + 1;
    }
    return Success(insights);
  }

  /**
   * Iteration `n` stores the summary of the re-annotated accumulator under
   * the label of goal `n` when that goal was located, and changes nothing
   * otherwise.
   */
  lemma StepStores(doc0: Doc, indices: seq<Option<nat>>, annotate: string -> Doc, summarise: Doc -> seq<string>, n: nat)
    requires 1 <= n < |indices|
    ensures indices[n - 1].None? ==> Run(doc0, indices, annotate, summarise, n) == Run(doc0, indices, annotate, summarise, n - 1)
    ensures indices[n - 1].Some? ==>
      Run(doc0, indices, annotate, summarise, n).doc == annotate(Join(Run(doc0, indices, annotate, summarise, n).sentences, " ")) &&
      Run(doc0, indices, annotate, summarise, n).insights ==
        Run(doc0, indices, annotate, summarise, n - 1).insights[Label(n) := summarise(Run(doc0, indices, annotate, summarise, n).doc)]
  {
  }

  /**
   * The labels stored after `n` iterations are exactly those of the goals
   * 1..n that were located.
   */
  lemma {:induction false} RunKeys(doc0: Doc, indices: seq<Option<nat>>, annotate: string -> Doc, summarise: Doc -> seq<string>, n: nat)
    requires n < |indices|
    ensures forall k: nat :: Label(k) in Run(doc0, indices, annotate, summarise, n).insights <==> 1 <= k <= n && indices[k - 1].Some?
    ensures forall key :: key in Run(doc0, indices, annotate, summarise, n).insights ==> exists k :: 1 <= k <= n && key == Label(k)
  {
    if n > 0 {
      RunKeys(doc0, indices, annotate, summarise, n - 1);
      var prev := Run(doc0, indices, annotate, summarise, n - 1);
      var cur := Run(doc0, indices, annotate, summarise, n);
      StepStores(doc0, indices, annotate, summarise, n);
      forall k: nat ensures Label(k) in cur.insights <==> 1 <= k <= n && indices[k - 1].Some? {
        if indices[n - 1].Some? && Label(k) == Label(n) {
          LabelInjective(k, n);
        }
      }
      forall key | key in cur.insights ensures exists k :: 1 <= k <= n && key == Label(k) {
        if key !in prev.insights {
          assert key == Label(n);
        }
      }
    }
  }

  /** A goal's stored summary is not changed by later iterations. */
  lemma {:induction false} RunKeeps(doc0: Doc, indices: seq<Option<nat>>, annotate: string -> Doc, summarise: Doc -> seq<string>, k: nat, n: nat)
    requires 1 <= k <= n < |indices| && indices[k - 1].Some?
    ensures Label(k) in Run(doc0, indices, annotate, summarise, n).insights
    ensures Run(doc0, indices, annotate, summarise, n).insights[Label(k)] == summarise(Run(doc0, indices, annotate, summarise, k).doc)
  {
    var summary := summarise(Run(doc0, indices, annotate, summarise, k).doc);
    var ins := Run(doc0, indices, annotate, summarise, n).insights;
    StepStores(doc0, indices, annotate, summarise, n);
    if k < n {
      var before := Run(doc0, indices, annotate, summarise, n - 1).insights;
      RunKeeps(doc0, indices, annotate, summarise, k, n - 1);
      assert Label(k) in before && before[Label(k)] == summary;
      if indices[n - 1].Some? {
        assert Label(k) != Label(n) by {
          if Label(k) == Label(n) {
            LabelInjective(k, n);
          }
        }
        assert ins == before[Label(n) := summarise(Run(doc0, indices, annotate, summarise, n).doc)];
      } else {
        assert ins == before;
      }
    }
  }

  /** The accumulator only grows: after `m <= n` iterations it is a prefix of the one after `n`. */
  lemma {:induction false} RunAccumulates(doc0: Doc, indices: seq<Option<nat>>, annotate: string -> Doc, summarise: Doc -> seq<string>, m: nat, n: nat)
    requires m <= n < |indices|
    ensures Run(doc0, indices, annotate, summarise, m).sentences <= Run(doc0, indices, annotate, summarise, n).sentences
  {
    if m < n {
      RunAccumulates(doc0, indices, annotate, summarise, m, n - 1);
    }
  }

  /**
   * The document read by iteration `n + 1` is the annotated input until a
   * goal has been located, and the re-annotated accumulator from then on.
   */
  lemma {:induction false} RunDoc(doc0: Doc, indices: seq<Option<nat>>, annotate: string -> Doc, summarise: Doc -> seq<string>, n: nat)
    requires n < |indices|
    ensures (forall k :: 0 <= k < n ==> indices[k].None?) ==> Run(doc0, indices, annotate, summarise, n).doc == doc0
    ensures (exists k :: 0 <= k < n && indices[k].Some?) ==>
      Run(doc0, indices, annotate, summarise, n).doc == annotate(Join(Run(doc0, indices, annotate, summarise, n).sentences, " "))
  {
    if n > 0 {
      RunDoc(doc0, indices, annotate, summarise, n - 1);
    }
  }

  /**
   * The first located goal's window is read from the annotated input: the
   * accumulator then holds the input's sentences from the goal's opening
   * one through the end of its window.
   */
  lemma FirstWindow(doc0: Doc, indices: seq<Option<nat>>, annotate: string -> Doc, summarise: Doc -> seq<string>, k: nat)
    requires k + 1 < |indices| && indices[k].Some?
    requires forall j :: 0 <= j < k ==> indices[j].None?
    ensures Run(doc0, indices, annotate, summarise, k + 1).sentences ==
      Texts(doc0[Min(indices[k].value, |doc0|)..Min(WindowEnd(indices[k].value, indices[k + 1]) + 1, |doc0|)])
  {
    var st := Run(doc0, indices, annotate, summarise, k);
    var start := indices[k].value;
    var end := WindowEnd(start, indices[k + 1]);
    assert st.doc == doc0 by { RunDoc(doc0, indices, annotate, summarise, k); }
    assert st.sentences == [] by { NothingBeforeFirst(doc0, indices, annotate, summarise, k); }
    assert Run(doc0, indices, annotate, summarise, k + 1).sentences == st.sentences + Selected(st.doc, start, end);
    SelectedIsSlice(doc0, start, end);
  }

  /** Before the first located goal the accumulator is empty. */
  lemma {:induction false} NothingBeforeFirst(doc0: Doc, indices: seq<Option<nat>>, annotate: string -> Doc, summarise: Doc -> seq<string>, n: nat)
    requires n < |indices|
    requires forall j :: 0 <= j < n ==> indices[j].None?
    ensures Run(doc0, indices, annotate, summarise, n).sentences == []
  {
    if n > 0 {
      NothingBeforeFirst(doc0, indices, annotate, summarise, n - 1);
    }
  }

  /**
   * The result of `get_insights`: goal `k` has an entry exactly when it is
   * one of the goals 1..16 and its query matched a sentence of the annotated
   * input (goal 17 never has one), every key is such a label, and every
   * entry holds at most three sentences.
   */
  lemma GoalInsightsSpec(text: string, annotate: string -> Doc, catalog: Catalog)
    requires HasAllGoals(catalog)
    ensures forall k: nat :: Label(k) in GoalInsights(text, annotate, catalog) <==>
      1 <= k < GoalCount && FirstMatch(annotate(text), catalog[GoalKey(k)]).Some?
    ensures forall key :: key in GoalInsights(text, annotate, catalog) ==> exists k :: 1 <= k < GoalCount && key == Label(k)
    ensures forall key :: key in GoalInsights(text, annotate, catalog) ==> |GoalInsights(text, annotate, catalog)[key]| <= SummaryLength
  {
    var doc := annotate(text);
    var indices := Locate(doc, catalog);
    RunKeys(doc, indices, annotate, Summary, GoalCount - 1);
    RunEntriesBounded(doc, indices, annotate, GoalCount - 1);
  }

  /** With `Summary` as the summariser, every stored entry holds at most three sentences. */
  lemma RunEntriesBounded(doc0: Doc, indices: seq<Option<nat>>, annotate: string -> Doc, n: nat)
    requires n < |indices|
    ensures forall key :: key in Run(doc0, indices, annotate, Summary, n).insights ==>
      |Run(doc0, indices, annotate, Summary, n).insights[key]| <= SummaryLength
  {
    RunKeys(doc0, indices, annotate, Summary, n);
    var ins := Run(doc0, indices, annotate, Summary, n).insights;
    forall key | key in ins ensures |ins[key]| <= SummaryLength {
      var k :| 1 <= k <= n && key == Label(k);
      assert indices[k - 1].Some?;
      RunKeeps(doc0, indices, annotate, Summary, k, n);
      var docK := Run(doc0, indices, annotate, Summary, k).doc;
      assert ins[key] == Summary(docK);
      SummaryMentionsKeywords(docK);
    }
  }
}
