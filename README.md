# SDG insights core, modelled in Dafny

This project models the natural-language core of the SDG accelerator
backend (`api/nlp.py`), which turns the text of a national development
report into short summaries, one per Sustainable Development Goal:

- `allowed_file` is the upload filter. It accepts a file name whose last
  extension is `pdf`, in any case.
- `clean` is the clean-up applied to extracted text. It deletes runs of
  two or more dots, collapses runs of spaces, turns `cid:<digits>` into a newline and
  then every newline into a space.
- `search_sentence` is the sentence matcher. It returns the index of the
  first sentence whose lower-cased tokens contain every required term, at
  least one optional term and no stopper, and which has fewer than 100
  tokens.
- `find_indices` is the goal locator. It runs the matcher once per goal
  query `sdg_1` … `sdg_17` of the goal catalog.
- `summarise` is the extractive summariser. Keywords are the
  non-stop-word, non-punctuation tokens tagged noun, proper noun, adjective
  or verb. Their counts are divided by the largest count. A sentence's
  strength is the sum of the weights of its keyword-text tokens. The result
  is the text of the three strongest sentences, strongest first, ties to
  the earlier sentence (`heapq.nlargest`).
- `get_insights` is the driver. For each located goal 1..16 it cuts a
  window of sentences from the goal's opening sentence to the next goal's
  one (or 50 sentences on), appends it to an accumulator, re-annotates the
  joined accumulator and stores its summary under `Goal <k>`.

The language annotator (a spaCy pipeline) is a parameter `annotate: string
-> Doc`. A document is a sequence of sentences. Each sentence holds its
tokens (text, part-of-speech tag, stop-word and punctuation flags) and its
text. The goal catalog (`queries.json`) is a parameter too: a map from
`sdg_<k>` to a query.

Files:

- `wrappers.dfy`: `Option` and `Result`.
- `strings.dfy`: ASCII lower-casing, decimal rendering of naturals, and
  `str.join`.
- `text_prep.dfy`: `allowed_file` and `clean`.
- `annotation.dfy`: tokens, sentences and documents.
- `matcher.dfy`: `search_sentence` and `find_indices`.
- `ranking.dfy`: `heapq.nlargest` over sentence indices.
- `summariser.dfy`: `summarise`.
- `insights.dfy`: `get_insights`.

The loops of the source are methods. Each method is proved equal to a
specification function, and the lemmas beside it state what that function
guarantees:

- `SearchSentence` is proved equal to `FirstMatch`.
- `FindIndices` is proved equal to `Locate`.
- `Summarise`, with its helpers `SentenceStrengths` and `AddSentence`, is
  proved equal to `Summary`.
- `GetInsights`, with its helper `AppendWindow`, is proved equal to
  `GoalInsights`. That function is a fold of `Step` over the goals.

Two behaviours of `get_insights` are kept as the code has them:

- The sentence accumulator is never cleared, so each goal's text also
  holds the windows of all earlier located goals.
- Goal 17 never receives an entry, because the loop runs over
  `range(len(indices) - 1)`.

Two further properties of `get_insights` follow from the code:

- After the first located goal, `get_insights` rebinds `doc` to the
  re-annotated accumulator (api/nlp.py:206). Later windows are therefore cut
  from that document, not from the original one (api/nlp.py:201).
- A failing annotator call is not caught, so it ends the whole call.

`Step` and `Run`, the fold of the loop, take the summariser as a parameter
`summarise`, as they take the annotator. `GoalInsights` and `GetInsights` fix
it to `Summary`, so the result is the one `summarise` computes. The lemmas
about the fold hold for any summariser, except `RunEntriesBounded`, which
needs `Summary`.

## Model

| member | source | states |
|---|---|---|
| Strings.Lower | api/nlp.py:28 | `str.lower` on ASCII: same length, each upper-case letter mapped to its lower-case one and every other character kept |
| Strings.Join | api/nlp.py:205 | `' '.join(sentences)`: the parts in order with the separator between neighbours (defined, no contract) |
| TextPrep.Extension | api/nlp.py:28 | the extension is the suffix after the last '.' and holds no '.'; a name without a '.' is its own extension |
| TextPrep.AllowedFile | api/nlp.py:23-29 | `allowed_file`: the name holds a '.' and its last extension, lower-cased, is in {"pdf"} (defined; `AllowedFileIff` states what it accepts) |
| TextPrep.AllowedFileIff | api/nlp.py:23-29 | a name is allowed exactly when its fourth-last character is '.' and its last three lower-case to "pdf" |
| TextPrep.AllowedFileAccepts | api/nlp.py:27-29 | "report.PDF" is allowed: the case of the extension does not matter |
| TextPrep.AllowedFileRejects | api/nlp.py:27-29 | a name without a dot ("pdf") and a name whose last extension is not pdf ("a.pdf.txt") are refused |
| TextPrep.DropDotRuns | api/nlp.py:74 | `re.sub(r'[.]{2,}', '', text)`: scans left to right, drops each maximal run of two or more dots and keeps a single dot (defined; `DropDotRunsSpec` characterises it) |
| TextPrep.DropDotRunsSpec | api/nlp.py:74 | the output keeps exactly the characters that are not a dot with a dot beside it, in order (`KeptDots`); so no two dots are adjacent, and only dots were deleted |
| TextPrep.DropDotRunsFixes | api/nlp.py:74 | text without adjacent dots is unchanged, so the step is idempotent |
| TextPrep.CollapseSpaces | api/nlp.py:75 | `re.sub(r'[ ]+', ' ', text)`: each maximal run of spaces becomes one space (defined; `CollapseSpacesSpec` characterises it) |
| TextPrep.CollapseSpacesSpec | api/nlp.py:75 | the output keeps exactly the characters that are not a space preceded by a space, in order (`KeptSpaces`); so no two spaces are adjacent, and only spaces were deleted |
| TextPrep.CollapseSpacesFixes | api/nlp.py:75 | text without adjacent spaces is unchanged, so the step is idempotent |
| TextPrep.MatchEnd | api/nlp.py:77 | `\d+` is greedy: a `cid:` match takes every digit that follows, and ends at the first non-digit or at the end of the text |
| TextPrep.ReplaceCid | api/nlp.py:77 | `re.sub(r'cid:\d+', '\n', text)`: leftmost matches, each replaced by one newline, scanning on after the match (defined; the lemmas below characterise it) |
| TextPrep.ReplaceCidCopies | api/nlp.py:77 | the output up to its first newline is a copy of the input's prefix of the same length |
| TextPrep.ReplaceCidPrefix | api/nlp.py:77 | the text before the leftmost match is copied unchanged |
| TextPrep.ReplaceCidNoMatch | api/nlp.py:77 | a text without any `cid:<digits>` is returned unchanged |
| TextPrep.ReplaceCidFirst | api/nlp.py:77 | at the leftmost match the output is the text before it, one newline, then the replacement of the text after the match's last digit |
| TextPrep.ReplaceCidRemovesAll | api/nlp.py:77 | no `cid:<digits>` occurrence survives the replacement |
| TextPrep.ReplaceNewlines | api/nlp.py:78 | same length, no newline left, every other character kept in place |
| TextPrep.Clean | api/nlp.py:60-80 | the cleaned text has no newline and no `cid:<digits>` |
| Annotation.TokensOfSentences | api/nlp.py:152 | the document's tokens are exactly the tokens of its sentences |
| Matcher.Qualifies | api/nlp.py:103-110 | the four conditions of `search_sentence` on the lower-cased token texts: every required term, some optional term, no stopper, fewer than 100 tokens (defined) |
| Matcher.FirstMatch | api/nlp.py:102-111 | a present answer is a qualifying sentence with no qualifying sentence before it; absent exactly when no sentence qualifies |
| Matcher.SearchSentence | api/nlp.py:83-111 | the first-hit scan returns the least qualifying index, or None when the loop falls through |
| Matcher.NothingToMatch | api/nlp.py:106-107 | an empty document, or a query without optional terms, matches nothing |
| Matcher.UpperCaseTermsNeverMatch | api/nlp.py:103-107 | terms are compared with lower-cased token texts, so a query whose optional terms all hold an upper-case letter matches nothing |
| Matcher.GoalKeyInjective | api/nlp.py:132 | distinct goals look up distinct catalog keys `sdg_<k>` |
| Matcher.Locate | api/nlp.py:128-135 | seventeen answers, one per goal in order, each present one a qualifying sentence for that goal's query |
| Matcher.FindIndices | api/nlp.py:114-135 | succeeds exactly when the catalog has every goal, with the answers of `Locate`; otherwise fails with the key of the first missing goal |
| Ranking.NLargest | api/nlp.py:168 | `heapq.nlargest(3, sent_strength, key=sent_strength.get)`: repeatedly takes the best remaining candidate; at most n elements and no more than there are candidates (the lemmas below state the ranking) |
| Ranking.Best | api/nlp.py:168 | the chosen candidate has the largest key, and every earlier candidate a strictly smaller one |
| Ranking.NLargestPicks | api/nlp.py:168 | the selection has min(n, number of candidates) elements, all candidates |
| Ranking.NLargestRanked | api/nlp.py:168 | the selection is in descending key order, ties in candidate order |
| Ranking.NLargestComplete | api/nlp.py:168 | every chosen candidate outranks every candidate left out |
| Ranking.NLargestTakesAll | api/nlp.py:168 | with no more candidates than places, every candidate is chosen |
| Summariser.Keywords | api/nlp.py:150-154 | the texts of the tokens that are not stop words, not punctuation and tagged PROPN, ADJ, NOUN or VERB, in document order (defined; `KeywordsFromTokens` characterises it) |
| Summariser.KeywordsFromTokens | api/nlp.py:150-154 | a text is in the keyword list exactly when some keyword token carries it |
| Summariser.CollectKeywords | api/nlp.py:150-154 | the loop over the tokens returns exactly the keyword list `Keywords`, in document order |
| Summariser.MaxCount | api/nlp.py:160 | the value bounds every count and is attained by some keyword |
| Summariser.Weights | api/nlp.py:159-161 | `Counter(keywords)` divided by the largest count (defined; `WeightsNormalised` states its properties) |
| Summariser.WeightsNormalised | api/nlp.py:159-161 | the weights cover exactly the keywords, lie in (0, 1], equal 1 exactly for the most frequent keywords, and order keywords as their counts do |
| Summariser.Strength | api/nlp.py:163-166 | a sentence's strength: the sum of the weights of its tokens whose text has a weight (defined) |
| Summariser.StrengthMap | api/nlp.py:162-166 | `sent_strength`: each sentence with a weighted token mapped to its strength (defined) |
| Summariser.Candidates | api/nlp.py:162-166 | the keys of `sent_strength` in insertion order (defined; `CandidatesSpec` characterises it) |
| Summariser.StrengthPositive | api/nlp.py:162-166 | with positive weights, a strength is never negative and is positive for a sentence with a keyword token |
| Summariser.CandidatesSpec | api/nlp.py:162-166 | the keys of `sent_strength` in insertion order are increasing and are exactly the sentences with a keyword-text token |
| Summariser.DocWeightsSpec | api/nlp.py:150-161 | the weighted texts are exactly the texts of keyword tokens, with weights in (0, 1] |
| Summariser.SummaryIndices | api/nlp.py:155-168 | the chosen sentences: none when there is no keyword, otherwise the three strongest candidates; every index is a sentence of the document |
| Summariser.Summary | api/nlp.py:169 | the texts of the chosen sentences, in the chosen order (defined; the `Summary…` lemmas state its properties) |
| Summariser.SentenceStrengths | api/nlp.py:162-166 | the loop builds the strength map of the specification, and its insertion order |
| Summariser.AddSentence | api/nlp.py:164-166 | one sentence's pass adds its entry, holding its strength, exactly when it has a keyword-text token |
| Summariser.Summarise | api/nlp.py:138-170 | the method returns the texts of the specified summary sentences |
| Summariser.SummaryEmptyIff | api/nlp.py:150-157 | the summary is empty exactly when no token of the document is a keyword token |
| Summariser.SummaryMentionsKeywords | api/nlp.py:168-169 | at most three sentences, each holding a keyword-text token and having positive strength |
| Summariser.SummaryRanked | api/nlp.py:168-169 | the summary is strongest first, equally strong sentences in document order |
| Summariser.SummaryComplete | api/nlp.py:168-169 | no sentence left out outranks a chosen one, and a sentence with a keyword is left out only when all three places are taken |
| Insights.Label | api/nlp.py:192 | `f'Goal {i+1}'` for the goal number (defined) |
| Insights.LabelInjective | api/nlp.py:192 | distinct goals get distinct labels `Goal <k>` |
| Insights.WindowEnd | api/nlp.py:197 | the window ends after its start, either at the next goal's sentence or 50 sentences on |
| Insights.Selected | api/nlp.py:201-203 | the texts of the enumerated sentences whose index lies in start..end, in order (defined; `SelectedIsSlice` characterises it) |
| Insights.SelectedIsSlice | api/nlp.py:201-203 | the enumerated window is the slice from start through end, cut short by the end of the document |
| Insights.Step | api/nlp.py:192-207 | one iteration: nothing for an unlocated goal; otherwise append the window, re-annotate the joined accumulator, store its summary under the label (defined) |
| Insights.Run | api/nlp.py:189-207 | the state after the first n iterations, from an empty accumulator and result (defined; the `Run…` lemmas state its properties) |
| Insights.GoalInsights | api/nlp.py:187-208 | the result of `get_insights`: the fold over goals 1..16 of the located indices, with the annotator and `Summary` (defined; `GoalInsightsSpec` states its properties) |
| Insights.AppendWindow | api/nlp.py:201-203 | the inner loop appends exactly the window to the accumulator |
| Insights.GetInsights | api/nlp.py:173-208 | fails with the key of the first missing goal (every earlier goal present) when one is missing; otherwise returns the result of the specified fold over goals 1..16 |
| Insights.RunKeys | api/nlp.py:191-207 | after n iterations the labels present are exactly those of the located goals among 1..n |
| Insights.StepStores | api/nlp.py:194-207 | an unlocated goal's iteration changes nothing; a located goal's iteration leaves the re-annotated accumulator as the document and stores its summary under the goal's label |
| Insights.RunKeeps | api/nlp.py:205-207 | a goal's entry is the summary of the re-annotated accumulator as it stood after that goal, and later goals leave it alone |
| Insights.RunEntriesBounded | api/nlp.py:205-207 | with `Summary`, the model of `summarise`, as the summariser, every entry stored in the first n iterations holds at most three sentences |
| Insights.RunAccumulates | api/nlp.py:190-203 | the accumulator only grows: each earlier state is a prefix of each later one |
| Insights.RunDoc | api/nlp.py:201-206 | windows are cut from the input document until a goal is located, and from the re-annotated accumulator afterwards |
| Insights.NothingBeforeFirst | api/nlp.py:190-195 | before the first located goal the accumulator is empty |
| Insights.FirstWindow | api/nlp.py:187-203 | the first located goal's accumulator is exactly its window of the input document |
| Insights.GoalInsightsSpec | api/nlp.py:173-208 | goal k has an entry exactly when 1 <= k <= 16 and its query matched the input; every key is such a label; every entry has at most three sentences |

## Left out

- `load` (PDF extraction with pdfplumber, writing the `.txt` file) is file I/O and is not modelled.
- Reading `queries.json` from the package is I/O. The catalog is a parameter, a map from keys to queries.
- A catalog entry whose keys do not fit `search_sentence`'s keyword arguments raises `TypeError` in the source. The catalog's type rules that out, so the model does not have this error.
- The spaCy annotator is an abstract function. Tokenisation, sentence splitting, tags, flags and sentence texts are its output. The model assumes a document's tokens are its sentences' tokens in order.
- An annotator that raises is not modelled, because `annotate` is a total function.
- Strings.Lower: implements ASCII case mapping only. For the "pdf" comparison of `allowed_file` this is exact, since no other character lower-cases to 'p', 'd' or 'f'. For token texts in `search_sentence`, non-ASCII letters keep their case.
- Strings.IsDigit: covers the ASCII digits only, where the regular expression `\d` also matches other Unicode decimal digits.
- Summariser.WeightsNormalised: weights are exact rationals (`real`). Floating-point rounding of the division and of the sums can break ties differently in the source.
- `heapq.nlargest` is modelled by its documented result, a stable top-n, not by its heap algorithm.
- The progress bars (`tqdm`) and the `print` calls of `find_indices` are output only and are left out.
- The branch `if end is None: continue` of `get_insights` is unreachable, because `end` is always a number. The model has no such branch.
- The key order of the returned dictionary is not modelled, because the result is a `map`. In the source, keys are inserted in ascending goal order.
- The web layer `app.py` is not part of this model.
