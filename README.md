# nlp-analyzer, modelled in Dafny

nlp-analyzer is a React front end for a text analyser. Its only logic is a mock
analyser, `analyzeText` in `AnalysisContext`. The analyser:

- splits the text into words and tags each word with a random part of speech;
- marks some words as entities, locating each with a forward-moving `indexOf` cursor;
- builds a binary "syntax tree" by midpoint splitting, with a depth cap;
- draws a sentiment score, and picks the positive, negative and keyword lists at random;
- cuts a summary out of the text.

The provider keeps the current analysis and a history of analyses. The views
then present the result:

- the entity view cuts the text into plain and highlighted fragments;
- the sentiment view maps the score to a bar, a label and a colour;
- the part-of-speech view looks tag codes up in a description table;
- the history panel truncates long texts.

This project models exactly that code, random mock included. Every `Math.random()` draw is an explicit
input, `Tables.UnitReal` or an index into a table:

- `Analysis.Draws` holds the draws of one analysis, indexed by word;
- `SyntaxTrees.TreeDraws` holds the tree's draws, indexed by recursion depth and slice start.

The clock reading and the generated id are parameters.

The JavaScript library semantics the code relies on are written out in
`JsString`:

- the `\s` class and `trim`;
- `substring`, which clamps both ends and swaps them;
- `indexOf` with a clamped start;
- `split`/`join` on a string separator, and `slice`;
- `replace` with a string pattern, which rewrites only the first occurrence;
- `toUpperCase` on one character.

The split `text.split(/\s+/).filter(Boolean)` is `Words.SplitWords`. It returns
the maximal non-white-space runs. `Words.WordSpans` records the span each word
was cut from. Those spans are what let the entity offsets be related to the words.

Modules:

| file | module | models |
|---|---|---|
| wrappers.dfy | Wrappers | `Option` |
| tables.dfy | Tables | `posTypes`, `posTags`, `entityTypes`, the relation labels and the ranges of the draws |
| js_string.dfy | JsString | the string operations listed above |
| words.dfy | Words | the word split |
| seqs.dfy | Seqs | `filter` with a mask, subsequences, and `Array.from(new Set(...))` |
| syntax_tree.dfy | SyntaxTrees | `createSyntaxTree` |
| analysis.dfy | Analysis | the result types and `analyzeText` |
| analysis_store.dfy | AnalysisStore | the provider state, the history updaters and `performAnalysis` |
| entity_recognition.dfy | EntityRecognition | `renderTextWithEntities`, `uniqueEntityTypes` and the legend |
| history_panel.dfy | HistoryPanel | `truncateText` |
| sentiment_analysis.dfy | SentimentAnalysis | the bar value, label, colour and badge class |
| pos_tagging.dfy | PosTaggingView | `tagMappings`, the legend and the word spans |

The entity loop and the fragment loop of `renderTextWithEntities` push into an
array while moving a cursor. They are methods with `while` loops
(`Analysis.RecognizeEntities`, `EntityRecognition.RenderTextWithEntities`), and
each is proved equal to a recursive function, which the lemmas then speak about.

`AnalysisProvider` is a class whose fields are the four pieces of React state.
Its methods are `setText`, `setIsAnalyzing`, `setCurrentAnalysis`, the three
history operations and `performAnalysis`.

Everything else is functions and lemmas.

## Model

| member | source | states |
|---|---|---|
| JsString.TrimEmptyIffBlank | src/contexts/AnalysisContext.tsx:78 | `text.trim()` is empty exactly when every character is white space |
| JsString.Substring | src/components/EntityRecognition.tsx:27 | `substring` with both ends in range is the slice between them, and never longer than the string |
| JsString.IndexOf | src/contexts/AnalysisContext.tsx:126 | `indexOf` returns -1 only when the pattern occurs nowhere from the clamped start on; otherwise it returns the first occurrence at or after that start |
| JsString.JoinSplitOn | src/contexts/AnalysisContext.tsx:183 | joining the pieces of `split(sep)` with `sep` gives the string back |
| JsString.SplitOnPiecesAvoidSep | src/contexts/AnalysisContext.tsx:183 | no piece of a split contains the separator |
| JsString.JoinTakeSplitIsPrefix | src/contexts/AnalysisContext.tsx:183 | joining the first n pieces of a split gives a prefix of the string |
| JsString.ReplaceFirst | src/components/SentimentAnalysis.tsx:46 | `replace(pat, rep)` leaves a string without `pat` unchanged; otherwise it rewrites the first occurrence only, with the text before it kept, `rep` in its place and the text after it kept |
| JsString.ReplacePrefixBefore | src/components/SentimentAnalysis.tsx:46 | replacing a leading pattern by `pre + pattern` puts `pre` in front of the whole string |
| JsString.Capitalize | src/components/EntityRecognition.tsx:76 | `charAt(0).toUpperCase() + slice(1)` keeps the length, upper-cases only the first character and keeps the rest |
| Words.WordSpans | src/contexts/AnalysisContext.tsx:102 | the spans are within the text, non-empty, free of white space, maximal, and strictly increasing with white space between them |
| Words.SplitWordsShape | src/contexts/AnalysisContext.tsx:102 | every word is non-empty and free of white space, and occurs in the text at its span, in text order |
| Words.NonSpaceCovered | src/contexts/AnalysisContext.tsx:102 | every character that is not white space lies inside some word's span, so nothing else is dropped |
| Words.BlankIffNoWords | src/contexts/AnalysisContext.tsx:78-102 | the text is blank exactly when its word list is empty |
| Seqs.SelectIsSubseq | src/contexts/AnalysisContext.tsx:171-172 | `filter` with any mask gives a subsequence of the list |
| Seqs.SelectFromMembers | src/contexts/AnalysisContext.tsx:171-172 | an element survives the filter exactly when some position holding it is kept by the mask |
| Seqs.SubseqTrans | src/contexts/AnalysisContext.tsx:186-188 | a subsequence of a subsequence is a subsequence |
| Seqs.Dedup | src/components/EntityRecognition.tsx:59-61 | `Array.from(new Set(xs))` holds only elements of xs, holds every element of xs, and holds none twice |
| Seqs.DedupFirstAppearance | src/components/EntityRecognition.tsx:59-61 | the distinct elements come in the order of their first appearance |
| SyntaxTrees.CreateSyntaxTreeNode | src/contexts/AnalysisContext.tsx:143-164 | a call on at most one word, or deeper than 3, gives a childless "leaf" node holding `words[0]` or ""; any other call gives a node holding the middle word, with a drawn relation, whose left child is always present and first, and whose right child is absent exactly for a two-word slice |
| SyntaxTrees.SyntaxTreeShapedAndShallow | src/contexts/AnalysisContext.tsx:142-167 | every tag is in `posTags`; every leaf is "leaf"; every inner node has a relation in subj/pred/obj/mod and one or two children; the tree has at most 4 edges on any path |
| SyntaxTrees.InOrderIsSubseq | src/contexts/AnalysisContext.tsx:152-163 | the in-order node words of a call are a subsequence of its slice |
| SyntaxTrees.SyntaxTreeWordsFromInput | src/contexts/AnalysisContext.tsx:167 | every node word of the tree is a word of the input |
| SyntaxTrees.InOrderWithinCapacity | src/contexts/AnalysisContext.tsx:143-163 | a call whose slice fits its depth's capacity (31 at the root) keeps every word, in order |
| SyntaxTrees.InOrderAtMostCapacity | src/contexts/AnalysisContext.tsx:143-163 | no call keeps more words than its capacity |
| SyntaxTrees.SyntaxTreeKeepsAllWordsIff | src/contexts/AnalysisContext.tsx:167 | for a non-empty list, the traversal equals the word list exactly when there are at most 31 words; beyond that, words are dropped |
| SyntaxTrees.SyntaxTreeOfNothing | src/contexts/AnalysisContext.tsx:143-149 | no words give a single leaf holding "" |
| Analysis.PosTagging | src/contexts/AnalysisContext.tsx:108-115 | one tag per word, carrying that word |
| Analysis.PosTaggingParallel | src/contexts/AnalysisContext.tsx:105-113 | every `tag` and `type` is taken from the same index of the two tables |
| Analysis.RecognizeEntities | src/contexts/AnalysisContext.tsx:119-139 | the loop computes the recursive scan and, for non-empty words, yields valid entities |
| Analysis.ScanValid | src/contexts/AnalysisContext.tsx:124-139 | every entity has `text.substring(start, end) == word`, `end == start + |word| > start`, and a label from `entityTypes`; consecutive entities do not overlap; none starts before the cursor |
| Analysis.CursorStep | src/contexts/AnalysisContext.tsx:126-136 | with the cursor no later than a word's own position, `indexOf` finds the word no later than that position, and the new cursor stays before the next word |
| Analysis.ScanFindsChosen | src/contexts/AnalysisContext.tsx:125-127 | on located words, the `-1` branch is never taken: the entity words are exactly the chosen words, in order |
| Analysis.EntitiesProperties | src/contexts/AnalysisContext.tsx:119-139 | the analysis's entities are valid and ordered, one for each word whose draw exceeds 0.9 |
| Analysis.EntityMayLandInsideEarlierWord | src/contexts/AnalysisContext.tsx:126 | `indexOf` can place an entity inside an earlier word: in "ab b", with only the second word chosen, the entity "b" starts at 1 |
| Analysis.MockScore | src/contexts/AnalysisContext.tsx:170 | the score lies in [-1, 1) |
| Analysis.Comparative | src/contexts/AnalysisContext.tsx:176 | `comparative` has no value exactly when there are no words; otherwise, times the word count, it is the score |
| Analysis.SummaryShape | src/contexts/AnalysisContext.tsx:182-184 | with at most 10 words the summary is the text; with more it is a prefix of the text followed by "." |
| Analysis.SummaryWithoutBreak | src/contexts/AnalysisContext.tsx:182-184 | a long text without ". " is summarised as itself plus "." |
| Analysis.AnalyzeText | src/contexts/AnalysisContext.tsx:98-201 | `analyzeText` returns the result `AnalysisOf` describes for the given draws, id and clock |
| Analysis.AnalysisOfProperties | src/contexts/AnalysisContext.tsx:170-200 | `result.text` is the input; one tag per word; positive, negative and keywords are subsequences of the word list; at most 5 keywords; the score lies in [-1, 1) |
| AnalysisStore.PrependedProperties | src/contexts/AnalysisContext.tsx:65-67 | adding grows the history by one, puts the analysis at index 0, and keeps the old entries in order behind it |
| AnalysisStore.WithoutIdCounts | src/contexts/AnalysisContext.tsx:73-75 | removal keeps each entry whose id differs exactly as many times as before, and no entry with the id |
| AnalysisStore.WithoutIdMembers | src/contexts/AnalysisContext.tsx:73-75 | an entry survives removal exactly when it was there and its id differs |
| AnalysisStore.WithoutIdIsSubseq | src/contexts/AnalysisContext.tsx:73-75 | removal keeps the survivors' relative order |
| AnalysisStore.WithoutAbsentId | src/contexts/AnalysisContext.tsx:73-75 | removing an id no entry has leaves the history unchanged |
| AnalysisStore.WithoutIdIdempotent | src/contexts/AnalysisContext.tsx:73-75 | removing twice equals removing once |
| AnalysisStore.RemoveUndoesAdd | src/contexts/AnalysisContext.tsx:65-75 | removing the id of an analysis just added, when no earlier entry had that id, restores the history |
| AnalysisStore.RefusedIffNoWords | src/components/TextInputForm.tsx:29 | the guard `!text.trim() \|\| isAnalyzing` holds exactly when the analyser is busy or the text is blank, which is the same as the text having no words |
| AnalysisStore.AnalysisProvider.constructor | src/contexts/AnalysisContext.tsx:60-63 | the initial state: empty text, not analysing, no current analysis, empty history |
| AnalysisStore.AnalysisProvider.SetText | src/contexts/AnalysisContext.tsx:60 | only the text changes |
| AnalysisStore.AnalysisProvider.SetIsAnalyzing | src/contexts/AnalysisContext.tsx:61 | only the flag changes |
| AnalysisStore.AnalysisProvider.SetCurrentAnalysis | src/contexts/AnalysisContext.tsx:62 | only the current analysis changes |
| AnalysisStore.AnalysisProvider.AddToHistory | src/contexts/AnalysisContext.tsx:65-67 | the history becomes `[analysis] + prev`, and nothing else changes |
| AnalysisStore.AnalysisProvider.ClearHistory | src/contexts/AnalysisContext.tsx:69-71 | the history becomes empty, and nothing else changes |
| AnalysisStore.AnalysisProvider.RemoveFromHistory | src/contexts/AnalysisContext.tsx:73-75 | the history becomes the filtered list, and nothing else changes |
| AnalysisStore.AnalysisProvider.PerformAnalysis | src/contexts/AnalysisContext.tsx:77-94 | when refused, nothing changes. Otherwise the flag is false afterwards. On success the result is current and first in the history. On failure neither the current analysis nor the history changes |
| EntityRecognition.InsertByStartPermutation | src/components/EntityRecognition.tsx:20 | inserting adds exactly the one entity |
| EntityRecognition.SortByStartPermutation | src/components/EntityRecognition.tsx:20 | the sort by start is a permutation of the entities |
| EntityRecognition.SortByStartIsSorted | src/components/EntityRecognition.tsx:20 | the sort is ordered by start |
| EntityRecognition.SortByStartStable | src/components/EntityRecognition.tsx:20 | the sort is stable: entities with the same start keep their relative order |
| EntityRecognition.SortByStartSorted | src/components/EntityRecognition.tsx:20 | sorting an already sorted list changes nothing |
| EntityRecognition.RenderTextWithEntities | src/components/EntityRecognition.tsx:13-56 | the fragment loop computes `Render`: with no entities, the whole text as one fragment; otherwise gap, entity and tail fragments along the sorted entities |
| EntityRecognition.ConcatAppend | src/components/EntityRecognition.tsx:55 | the text of two fragment lists side by side is the two texts joined |
| EntityRecognition.FragmentsHighlights | src/components/EntityRecognition.tsx:22-44 | one highlighted fragment per entity, in list order, each holding `text.substring(start, end)` and its label |
| EntityRecognition.RenderHighlights | src/components/EntityRecognition.tsx:14-44 | the rendered highlights are those of the entities in sorted order; without entities there are none |
| EntityRecognition.RenderNoEmptyPlain | src/components/EntityRecognition.tsx:24-27 | for entities within the text, no gap or tail fragment is empty |
| EntityRecognition.FragmentsRoundTrip | src/components/EntityRecognition.tsx:22-53 | ordered, non-overlapping entities within the text cut it into fragments that concatenate back to exactly the text |
| EntityRecognition.RenderValidRoundTrip | src/components/EntityRecognition.tsx:13-53 | valid entities render back to exactly the text |
| EntityRecognition.RenderAnalysisRoundTrip | src/components/EntityRecognition.tsx:13-53 | the entities of any analysis render the analysed text back exactly |
| EntityRecognition.UniqueEntityTypesProperties | src/components/EntityRecognition.tsx:59-61 | each label appears once; every entity's label appears; only entity labels appear; labels come in first-appearance order |
| EntityRecognition.LegendLabelsProperties | src/components/EntityRecognition.tsx:59-76 | one badge per unique label; each badge is a label some entity carries, with only its first character upper-cased; every entity's label, capitalised, has a badge |
| HistoryPanel.TruncateText | src/components/HistoryPanel.tsx:29-31 | a text no longer than the limit is unchanged; a longer one is its first `maxLength` characters plus "...", `maxLength + 3` long; a negative limit gives just "..." |
| HistoryPanel.TruncateTextPrefix | src/components/HistoryPanel.tsx:30 | the result begins with the first `min(|t|, maxLength)` characters |
| HistoryPanel.TruncateTextIdempotent | src/components/HistoryPanel.tsx:30 | truncating twice equals truncating once |
| SentimentAnalysis.NormalizedScore | src/components/SentimentAnalysis.tsx:14 | a score in [-1, 1] is placed in [0, 100] |
| SentimentAnalysis.NormalizedScoreScale | src/components/SentimentAnalysis.tsx:14 | -1, 0 and 1 map to 0, 50 and 100, and the map is strictly increasing |
| SentimentAnalysis.MockScoreOnBar | src/contexts/AnalysisContext.tsx:170 | the analyser's scores land in [0, 100) on the bar |
| SentimentAnalysis.SentimentLabel | src/components/SentimentAnalysis.tsx:16-20 | the label is Positive iff score > 0.33, Negative iff score < -0.33, and Neutral otherwise |
| SentimentAnalysis.SentimentColor | src/components/SentimentAnalysis.tsx:22-26 | the colour is green, red or yellow exactly as the label is Positive, Negative or Neutral |
| SentimentAnalysis.BadgeClassIsOpaqueColor | src/components/SentimentAnalysis.tsx:46 | the badge class is the colour with "bg-opacity-80 " in front |
| PosTaggingView.Lookup | src/components/POSTagging.tsx:47 | the lookup finds nothing exactly when no entry has the key |
| PosTaggingView.LookupEntry | src/components/POSTagging.tsx:12-22 | in a table with distinct keys, the key of entry i looks up the value of entry i |
| PosTaggingView.TagMappingsKeys | src/components/POSTagging.tsx:12-22 | the table's codes are the analyser's `posTags` in the same order, distinct, and with non-empty descriptions |
| PosTaggingView.TitleOfKnownTag | src/components/POSTagging.tsx:12-22 | each of the nine codes has its listed description as title |
| PosTaggingView.TitleOfUnknownTag | src/components/POSTagging.tsx:47 | a code the table lacks falls back to itself |
| PosTaggingView.DescriptionsAreCapitalisedTypes | src/components/POSTagging.tsx:12-22 | description i is `posTypes[i]` with its first letter capitalised |
| PosTaggingView.TagMappingsMatchTables | src/components/POSTagging.tsx:47 | the title of `posTags[i]` is `posTypes[i]` capitalised |
| PosTaggingView.LegendMatchesTables | src/components/POSTagging.tsx:33-37 | the legend has one entry per analyser tag, in the order of `posTags`, each `posTags[i] - ` followed by `posTypes[i]` capitalised |
| PosTaggingView.SpansOfAnalysis | src/components/POSTagging.tsx:43-51 | for an analysis, span i shows word i, and its title is the capitalised type of its tag, never the fallback |

## Left out

- The simulated network delay, `async`/`await` and React's batching of state updates are left out. `PerformAnalysis` runs the guard, the flag updates, the analysis and the history update as one sequential step. Whether the awaited analysis throws is the parameter `fails`.
- The `console.error` call in the failure branch of `performAnalysis` is left out, because it is output only; the branch's state changes are modelled.
- `Date.now()` ids, `new Date()` timestamps and `toLocaleString` are left out. The id and the clock are parameters, and nothing is assumed about their uniqueness.
- `Math.random()` is not modelled as a random process. Each draw is an input, and the "about 10%" and "about 30%" rates are not stated.
- The tree's draws are keyed by recursion depth and slice start rather than taken in sequence. The order in which the source calls `Math.random()` is not modelled.
- Floating point is left out. Scores, `comparative` and the bar value are real numbers. The non-finite `comparative` of an empty word list is `None`, and `toFixed(2)` is not modelled.
- Strings are sequences of characters, not UTF-16 code units. `toUpperCase` changes only ASCII letters. `$` sequences in the replacement string of `replace` are not interpreted.
- `tagMappings[tag]` for keys inherited from `Object.prototype` (such as "constructor") is not modelled. Such a key counts as absent and falls back to the tag.
- `AnalysisResult.summary` and `keywords` are optional in the record type, but `analyzeText` always sets them. The model gives them plain types, and the field `type` of a tag is named `posType`.
- JSX, CSS classes other than the ones stated above, and the remaining components (the page, the header, the form beyond its guard, the additional-features panel and the recursive syntax-tree display) are left out.
- `EntityRecognition.RenderTextWithEntities` returns fragments (text plus label) rather than React elements. The `key` props are not modelled.
