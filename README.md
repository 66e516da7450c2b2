# Chatbot-NLP core, modelled in Dafny

This project models the core of a Turkish question-answering chatbot. The
model covers five parts:

- **Normaliser** (`Preprocessing`). Turkish-aware case folding: capital I
  becomes dotless ı and capital İ becomes i. Then a filter down to
  `a-z0-9çğıöşü`, whitespace collapsing, and the word tokeniser built on top.
- **Similarity index** (`VectorSearch`). `VectorStore.search`: rank the corpus
  rows by score, keep the first `top_k`, skip those below the threshold, and
  build the `SimilarQuestion` of each kept row. Also loading a store by path.
- **Answer engine** (`Nlp`). Reading the label mapping document into
  `LabelMetadata` (`from_dict`), the id-to-metadata catalog, and `predict`.
  `predict` resolves the classifier's best label in the catalog and merges in
  the neighbours' questions and suggested links.
- **Training bookkeeping** (`Training`):
  - `load_dataset`: the required-column check, and dropping incomplete rows;
  - `build_label_mapping`: one label id per distinct answer, in order of first
    appearance, and one metadata record per label;
  - the train/validation split repair of `prepare_datasets`;
  - `id2label`/`label2id`;
  - the per-row metadata written beside the similarity index.
- **Chat front end** (`MessageLinks`). `parseMessage` splits a message into
  text pieces and `http(s)://` links.

`Decimal` models Python's `str(int)`, which the label names `LABEL_<id>`
are built from. `Wrappers` holds `Option` and `Result`.

The model is shaped like the source. Pure code is functions and lemmas. Loops
are methods with invariants, each proved equal to a specification function:
- `VectorSearch.Search`: the result loop;
- `Nlp.Predict` with `Nlp.MergeNeighbourLinks` and `Nlp.AppendNewLinks`: the
  nested link loop;
- `Training.BuildLabelMapping`: the metadata loop;
- `Training.PrepareSplit`: the repair loops;
- `Training.BuildVectorMetadata`;
- `MessageLinks.ParseMessage`: the `exec` loop.

The properties of those specification functions are proved as lemmas.

Some behaviour is given as parameters:
- the Unicode library (NFKC and `str.lower`);
- the TF-IDF scorer;
- the classifier;
- the random split;
- the order in which `value_counts` lists labels;
- the files the code reads.

Two points of the code deserve a note:
- **Ties in `search`.** `np.argsort(scores)[::-1]` is an unstable sort, then
  reversed, so the code fixes no order among rows with equal scores.
  `VectorSearch.RankDescending` promises only a descending permutation.
- **Top-level array.** The fallback in `payload.get("labels", payload)`
  reads as meant for a label mapping that is a bare array of entries, but a
  list has no `.get`, so the code raises on one (see Findings).

## Model

| member | source | states |
|---|---|---|
| Preprocessing.StripStart | backend/app/services/preprocessing.py:30 | `lstrip` returns a suffix of its input that does not start with whitespace |
| Preprocessing.StripEnd | backend/app/services/preprocessing.py:35 | `rstrip` returns a prefix of its input that does not end with whitespace |
| Preprocessing.StripStartDropsSpaces | backend/app/services/preprocessing.py:30 | every character `lstrip` drops is whitespace |
| Preprocessing.StripEndDropsSpaces | backend/app/services/preprocessing.py:35 | every character `rstrip` drops is whitespace |
| Preprocessing.StripBlank | backend/app/services/preprocessing.py:30 | a string of whitespace only strips to the empty string |
| Preprocessing.Strip | backend/app/services/preprocessing.py:30 | `strip` returns at most its input, with no whitespace at either end |
| Preprocessing.TurkishLower | backend/app/services/preprocessing.py:15-19 | `TURKISH_LOWER_MAP` changes only I and İ, and sends both to letters of the output alphabet |
| Preprocessing.CaseFold | backend/app/services/preprocessing.py:31 | case folding maps character for character: the length is kept (what each character becomes is CaseFoldMaps) |
| Preprocessing.CaseFoldMaps | backend/app/services/preprocessing.py:16-31 | under a faithful library every I becomes ı and every İ becomes i in place, output characters stay, and every other character is lower-cased |
| Preprocessing.CaseFoldKeepsOutput | backend/app/services/preprocessing.py:31 | folding leaves text over the output alphabet unchanged |
| Preprocessing.CollapseDottedI | backend/app/services/preprocessing.py:32 | replacing "i" + combining dot by "i" never lengthens the text (what it removes is CollapseDottedIDropsDots) |
| Preprocessing.CollapseDottedIDropsDots | backend/app/services/preprocessing.py:32 | the replacement removes exactly the combining dots (U+0307) that directly follow an i, and keeps every other character in order |
| Preprocessing.NoDottedIUnchanged | backend/app/services/preprocessing.py:32 | the replacement leaves text over the output alphabet unchanged |
| Preprocessing.MaskDisallowed | backend/app/services/preprocessing.py:22-33 | the filter keeps the length, keeps every allowed letter, digit and whitespace in place, and turns every other character into a plain space |
| Preprocessing.MaskKeepsOutput | backend/app/services/preprocessing.py:33 | the filter leaves text over the output alphabet unchanged |
| Preprocessing.MaskKeepsWords | backend/app/services/preprocessing.py:22-33 | the filter changes none of the text's words (maximal runs of `a-z0-9çğıöşü`) |
| Preprocessing.CollapseSpaces | backend/app/services/preprocessing.py:23-34 | after collapsing, no two spaces are adjacent; filtered input gives output over the output alphabet; no space directly follows an earlier run (what it keeps is CollapseSpacesKeepsWords) |
| Preprocessing.CollapseSpacesKeepsWords | backend/app/services/preprocessing.py:23-34 | collapsing whitespace keeps the text's words, and whether it starts with a word character |
| Preprocessing.CollapseSpacesKeepsNonSpaces | backend/app/services/preprocessing.py:23-34 | collapsing whitespace keeps every other character, in order |
| Preprocessing.CollapseSpacesUnchanged | backend/app/services/preprocessing.py:34 | collapsing leaves text without double spaces unchanged |
| Preprocessing.StripKeepsNormalized | backend/app/services/preprocessing.py:35 | the final strip leaves a normalised string unchanged |
| Preprocessing.StripKeepsWords | backend/app/services/preprocessing.py:30-35 | `strip` keeps the text's words |
| Preprocessing.Normalize | backend/app/services/preprocessing.py:26-35 | `normalize_text` returns a normalised string: output alphabet only, no space at either end, no double space (what it keeps is NormalizeIsJoinedWords) |
| Preprocessing.NormalizeIsJoinedWords | backend/app/services/preprocessing.py:26-35 | the normal form of non-empty text is its words after NFKC, folding and the dotted-i replacement, joined by single spaces: every other character or run of them becomes one space |
| Preprocessing.StripIsNormalized | backend/app/services/preprocessing.py:33-35 | stripping filtered, collapsed text gives a normalised string |
| Preprocessing.NormalizedIsFixedPoint | backend/app/services/preprocessing.py:26-35 | a normalised string normalises to itself |
| Preprocessing.NormalizeIdempotent | backend/app/services/preprocessing.py:26-35 | normalising twice equals normalising once |
| Preprocessing.BlankNormalizesToEmpty | backend/app/services/preprocessing.py:28-35 | empty or all-whitespace text normalises to "" |
| Preprocessing.NormalizeOneLetter | backend/app/services/preprocessing.py:26-35 | a one-letter text normalises to its Turkish lower-case letter |
| Preprocessing.CapitalDotlessI | backend/app/services/preprocessing.py:16-19 | "I" normalises to "ı" |
| Preprocessing.CapitalDottedI | backend/app/services/preprocessing.py:16-19 | "İ" normalises to "i" |
| Preprocessing.CapitalIsFoldApart | backend/app/services/preprocessing.py:16-19 | "I" and "İ" normalise to different letters |
| Preprocessing.WordRunLength | backend/app/services/preprocessing.py:38 | the run of word characters at the front is maximal |
| Preprocessing.FindWords | backend/app/services/preprocessing.py:38-43 | every token found is a non-empty run of word characters |
| Preprocessing.Tokenize | backend/app/services/preprocessing.py:41-43 | `tokenize` returns only non-empty runs of word characters |
| Preprocessing.TokensAreWords | backend/app/services/preprocessing.py:41-43 | no token is empty, and none holds whitespace |
| Preprocessing.JoinFindWords | backend/app/services/preprocessing.py:38-43 | joining the words of a normalised string with single spaces gives it back |
| Preprocessing.FindJoinedWords | backend/app/services/preprocessing.py:38-43 | words joined by single spaces form a normalised string whose tokens are exactly those words |
| Preprocessing.JoinedTokensAreNormalForm | backend/app/services/preprocessing.py:41-43 | the tokens of any text, joined by spaces, are its normal form |
| Preprocessing.TokenizeOutputText | backend/app/services/preprocessing.py:26-43 | text over the output alphabet tokenises to exactly its own words |
| Preprocessing.BatchNormalize | backend/app/services/preprocessing.py:56-57 | `batch_normalize` gives one normal form per input, in order |
| VectorSearch.InsertByScore | backend/app/services/vector_store.py:49 | inserting a row index into a ranking adds one position and keeps indices in range |
| VectorSearch.InsertMembers | backend/app/services/vector_store.py:49 | the insertion holds exactly the old indices and the new one; it keeps them distinct |
| VectorSearch.InsertSorted | backend/app/services/vector_store.py:49 | the insertion keeps the order by descending score |
| VectorSearch.RankPrefix | backend/app/services/vector_store.py:49 | ranking the first n rows gives n indices in range |
| VectorSearch.RankPrefixRanks | backend/app/services/vector_store.py:49 | that ranking is sorted by descending score, distinct, and holds exactly rows 0..n-1 |
| VectorSearch.RankDescending | backend/app/services/vector_store.py:49 | `argsort(scores)[::-1]` is a permutation of all rows, by descending score |
| VectorSearch.SliceEnd | backend/app/services/vector_store.py:49 | `[:top_k]` takes `min(top_k, n)` rows for a non-negative `top_k` |
| VectorSearch.Hit | backend/app/services/vector_store.py:56-66 | a result takes the row's fields, with "" or [] for missing keys, and the score |
| VectorSearch.HitsStep | backend/app/services/vector_store.py:52-67 | one loop pass skips a row below the threshold and otherwise appends its result |
| VectorSearch.KeptMembers | backend/app/services/vector_store.py:52-55 | the kept positions are exactly those scoring at least the threshold |
| VectorSearch.HitsAreKept | backend/app/services/vector_store.py:52-67 | the results are the kept rows' results, in ranking order |
| VectorSearch.Search | backend/app/services/vector_store.py:43-68 | the search loop returns the specified result |
| VectorSearch.SearchResult | backend/app/services/vector_store.py:43-68 | a query that strips to nothing gives no results (its other properties are SearchResultProperties) |
| VectorSearch.BlankQueryFindsNothing | backend/app/services/vector_store.py:44-45 | an all-whitespace query finds nothing |
| VectorSearch.SearchResultProperties | backend/app/services/vector_store.py:43-68 | search gives at most `top_k` results, all at or above the threshold, in descending score, each a corpus row; a higher-scoring row is never left out for a lower one; with fewer than `top_k` results, every row at or above the threshold is returned |
| VectorSearch.HitsShape | backend/app/services/vector_store.py:49-67 | the results of a ranked prefix are bounded, above threshold, descending and from the corpus |
| VectorSearch.HitsDominance | backend/app/services/vector_store.py:49-67 | a row scoring above a returned one is returned too |
| VectorSearch.HitsComplete | backend/app/services/vector_store.py:49-67 | a short result list holds every row at or above the threshold |
| VectorSearch.KeptRowReturned | backend/app/services/vector_store.py:49-67 | a row inside the prefix and above the threshold is returned |
| VectorSearch.Load | backend/app/services/vector_store.py:32-41 | loading gives None exactly when the file is missing, else the stored index |
| VectorSearch.LoadVectorStore | backend/app/services/vector_store.py:71-74 | an absent or empty path gives None; any other path is loaded |
| Decimal.ParseNatToString | backend/training/train_classifier.py:97 | `str(n)` is a non-empty digit string that reads back as n |
| Decimal.IntToStringInjective | backend/training/train_classifier.py:97 | different integers print differently |
| Decimal.IntToString | backend/training/train_classifier.py:97 | `str(i)` is non-empty and starts with `-` exactly when i is negative |
| Decimal.IntToStringShape | backend/training/train_classifier.py:97 | `str(i)` of a non-negative i is all digits; of a negative i it starts with `-` |
| Nlp.LabelNameInjective | backend/app/services/nlp.py:32 | different ids give different names `LABEL_<id>` |
| Nlp.FromDict | backend/app/services/nlp.py:28-39 | `from_dict` fails exactly when the id is missing; otherwise the id is kept |
| Nlp.FromDictRoundTrip | backend/app/services/nlp.py:28-39 | reading back the full payload of a metadata record gives the record |
| Nlp.FromDictDefaults | backend/app/services/nlp.py:31-38 | each key is read on its own: a present value is kept, a missing name reads as `LABEL_<id>`, a missing answer as "", a missing category or subcategory as None and a missing list as [] |
| Nlp.LabelEntriesAsWritten | backend/app/services/nlp.py:66 | as written, a top-level array is rejected and a `labels` key is used as is |
| Nlp.LabelEntries | backend/app/services/nlp.py:66 | the corrected reading accepts a top-level array as the label list; objects are read as written |
| Nlp.TopLevelArrayRejectedAsWritten | backend/app/services/nlp.py:66 | a one-entry top-level array: rejected as written, accepted as corrected |
| Nlp.ParseLabels | backend/app/services/nlp.py:67 | parsing the entries gives one record per entry |
| Nlp.ParseLabelsSucceeds | backend/app/services/nlp.py:67 | parsing succeeds exactly when every entry has an id |
| Nlp.ParseLabelsEach | backend/app/services/nlp.py:67 | each record is `from_dict` of the entry at its position |
| Nlp.IdToMetadata | backend/app/services/nlp.py:53 | the catalog's keys are exactly the ids of the records |
| Nlp.LastEntryWins | backend/app/services/nlp.py:53 | an id maps to the last record that carries it |
| Nlp.IdToMetadataNumbered | backend/app/services/nlp.py:53 | records numbered 0..n-1 give a catalog with exactly those keys, each mapped to its record |
| Nlp.LoadCatalog | backend/app/services/nlp.py:52-67 | the catalog fails with the entries' error when they cannot be read, and maps every id to a record carrying that id; built on the corrected LabelEntries, so it also loads a top-level array, which the code as written rejects |
| Nlp.LoadCatalogIds | backend/app/services/nlp.py:52-67 | the catalog loads exactly when the entries are readable and all have ids; then it holds every entry's id |
| Nlp.Infer | backend/app/services/nlp.py:70-86 | a `top_k` below 1 yields no inference (`topk` with k = 0 leaves `top_indices[0][0]` out of range; a negative k raises) |
| Nlp.InferNormalizedText | backend/app/services/nlp.py:70 | the classifier sees only the normal form: normalising the question first changes nothing |
| Nlp.AppendAbsentConcat | backend/app/services/nlp.py:97-100 | merging two runs of links equals merging the first, then the second |
| Nlp.AppendAbsentProperties | backend/app/services/nlp.py:97-100 | the merge keeps the seed links in front; it adds every new link, only new links, and no link twice |
| Nlp.AppendPresentUnchanged | backend/app/services/nlp.py:97-100 | merging links already present changes nothing |
| Nlp.MergeKeepsDistinct | backend/app/services/nlp.py:97-100 | merging into a duplicate-free list keeps it duplicate-free |
| Nlp.NonEmptyQuestions | backend/app/services/nlp.py:96 | the similar questions are non-empty, at most one per neighbour |
| Nlp.NonEmptyQuestionsInRankOrder | backend/app/services/nlp.py:96 | the questions keep the neighbours' order |
| Nlp.NonEmptyQuestionsComplete | backend/app/services/nlp.py:96 | every neighbour's non-empty question is included |
| Nlp.LinkInAllLinks | backend/app/services/nlp.py:97-98 | every neighbour's link is among the links scanned |
| Nlp.AppendNewLinks | backend/app/services/nlp.py:98-100 | the inner loop appends the absent links of one neighbour |
| Nlp.MergeNeighbourLinks | backend/app/services/nlp.py:97-100 | the nested loop computes the specified merge over all neighbours |
| Nlp.Predict | backend/app/services/nlp.py:69-109 | `predict` fails when inference fails or the best label is missing from the catalog; otherwise it returns the catalog entry's answer with the neighbours merged in |
| Nlp.Answer | backend/app/services/nlp.py:91-109 | the answer carries the catalog's text, category and subcategory and the confidence; its questions are non-empty; without a store it has no questions and exactly the catalog's links |
| Nlp.AnswerProperties | backend/app/services/nlp.py:91-109 | the answer carries the catalog's text, category and subcategory and the confidence; catalog links come first and the neighbour links after them are distinct; questions are non-empty and complete; without a store nothing is merged |
| Training.FillColumn | backend/training/train_classifier.py:80-82 | an optional column is filled (missing values as "") exactly when the file has it |
| Training.CompleteIndices | backend/training/train_classifier.py:77 | the positions of the rows having both question and answer, increasing, all of them |
| Training.DropIncomplete | backend/training/train_classifier.py:77-82 | the kept rows are the cleaned complete rows, in file order |
| Training.LoadDataset | backend/training/train_classifier.py:70-83 | a missing file fails; a missing column fails, naming the non-empty set of missing columns; otherwise loading succeeds |
| Training.LoadDatasetRows | backend/training/train_classifier.py:77-83 | a loaded dataset holds every complete row, cleaned, and only those |
| Training.UniqueAnswers | backend/training/train_classifier.py:87 | `unique()` gives distinct answers, no more than the rows |
| Training.UniqueAnswersMembers | backend/training/train_classifier.py:87 | an answer is listed exactly when some row has it |
| Training.UniqueAnswersFirstAppearance | backend/training/train_classifier.py:87 | answers are listed in order of first appearance |
| Training.AnswerIds | backend/training/train_classifier.py:88 | `answer_to_id` maps each distinct answer to its position |
| Training.LabelIds | backend/training/train_classifier.py:88-89 | each row's label id names its answer |
| Training.QuestionsFor | backend/training/train_classifier.py:92-99 | a group's questions are no more than the rows |
| Training.QuestionsForSource | backend/training/train_classifier.py:92-99 | each question in a group comes from a row with that answer |
| Training.QuestionsForAppend | backend/training/train_classifier.py:92-99 | grouping keeps row order |
| Training.QuestionsForNonEmpty | backend/training/train_classifier.py:92-99 | an answer present in the rows has a non-empty group |
| Training.QuestionExamples | backend/training/train_classifier.py:99 | `head(10)`: a prefix of the group, the whole group when it has fewer than 10 |
| Training.RecordsUpTo | backend/training/train_classifier.py:91-103 | the first n records are the records of labels 0..n-1 |
| Training.LabelRecords | backend/training/train_classifier.py:91-103 | one record per distinct answer |
| Training.BuildLabelMapping | backend/training/train_classifier.py:86-104 | the loop returns each row's label id and the records sorted by id |
| Training.LabelRecordsProperties | backend/training/train_classifier.py:91-103 | record i has id i and name `LABEL_i`, an answer and no links; answers are distinct |
| Training.RowIdsMatchRecords | backend/training/train_classifier.py:86-104 | a row's label id is the one record with the row's answer |
| Training.LabelRecordExamples | backend/training/train_classifier.py:92-99 | each record has between 1 and 10 examples, a prefix of its group |
| Training.LabelRecord | backend/training/train_classifier.py:94-101 | the record written for label i reads back through `from_dict` with id i, name `LABEL_i`, the i-th answer and no links |
| Training.ParseTrainedRecords | backend/app/services/nlp.py:29-39 | the records written by training read back through `from_dict` as the intended metadata |
| Training.TrainedCatalogLoads | backend/app/services/nlp.py:52-67 | the label mapping written by training loads as the catalog of that metadata |
| Training.TrainedCatalog | backend/training/train_classifier.py:91-103 | that catalog covers exactly ids 0..n-1; id i has answer i, `LABEL_i`, its examples and no links |
| Training.AllRows | backend/training/train_classifier.py:114-116 | the positions 0..n-1 of all rows, which `df.copy()` puts in train when there are fewer than two |
| Training.FirstWithLabel | backend/training/train_classifier.py:125-127 | the first validation row with the label, or none |
| Training.FirstRepeated | backend/training/train_classifier.py:137-138 | the first train row whose label occurs more than once, or none |
| Training.LabelPlaced | backend/training/train_classifier.py:123-127 | a label missing from train is found in validation |
| Training.MoveKeepsPartition | backend/training/train_classifier.py:127-129 | moving a row from validation to train keeps the split a partition of the rows |
| Training.MoveMissingLabels | backend/training/train_classifier.py:120-134 | the first repair loop keeps a partition, puts every label in train, and changes nothing when none is missing |
| Training.TakeOutKeepsPartition | backend/training/train_classifier.py:138-141 | moving a row from train into an empty validation keeps a partition |
| Training.TakeOutKeepsLabels | backend/training/train_classifier.py:137-141 | taking out a row whose label repeats keeps every label in train |
| Training.NoRepeatedLabel | backend/training/train_classifier.py:136-145 | if no train row's label repeats, no label occurs twice |
| Training.RefillValidation | backend/training/train_classifier.py:136-145 | the refill keeps a partition and every label in train; it acts only on an empty validation set and a train set of two or more rows; it leaves validation empty only when no label repeats |
| Training.PrepareSplit | backend/training/train_classifier.py:107-145 | the repaired split is a partition with every label in train; fewer than two rows go all to train; with two or more rows, validation ends empty only when no label repeats |
| Training.Id2Label | backend/training/train_classifier.py:171 | `id2label` maps exactly the label ids present to `LABEL_<id>` |
| Training.Label2Id | backend/training/train_classifier.py:172 | `label2id` has exactly the names of `id2label` as keys |
| Training.LabelMapsInverse | backend/training/train_classifier.py:171-172 | the two maps are inverse to each other |
| Training.BuildVectorMetadata | backend/training/train_classifier.py:188-199 | one metadata entry per row, in row order |
| Training.VectorEntry | backend/training/train_classifier.py:190-198 | the entry written for a row gives, for any score, a hit with the row's question, answer, category and subcategory, and no tags or links |
| Training.VectorEntryReadBack | backend/training/train_classifier.py:188-199 | a search hit on a training row returns its question, answer, category and subcategory, with no tags or links |
| MessageLinks.RunLength | arayuz/src/App.jsx:6 | the run of URL characters stays inside the text |
| MessageLinks.RunIsMaximal | arayuz/src/App.jsx:6 | that run holds only URL characters (no whitespace and no `)`), and it is maximal |
| MessageLinks.MatchLength | arayuz/src/App.jsx:6 | a match stays inside the text |
| MessageLinks.MatchIsMaximalLink | arayuz/src/App.jsx:6 | a match is a link (scheme, then URL characters) that cannot be extended |
| MessageLinks.NextMatch | arayuz/src/App.jsx:11 | `exec` returns a position at or after `lastIndex` where a match starts, or the end |
| MessageLinks.NextMatchIsLeftmost | arayuz/src/App.jsx:11 | no match starts before the one `exec` returns |
| MessageLinks.NextMatchAfterLink | arayuz/src/App.jsx:11-30 | no match starts where the previous one ended |
| MessageLinks.Matches | arayuz/src/App.jsx:11-31 | the matches found are non-empty, in order and inside the text |
| MessageLinks.MatchesAreMatches | arayuz/src/App.jsx:11-31 | each span found is the match at its start |
| MessageLinks.MatchesSeparated | arayuz/src/App.jsx:11-31 | consecutive matches are separated by at least one character |
| MessageLinks.MatchesHead | arayuz/src/App.jsx:11 | the first match found is the one `exec` returns |
| MessageLinks.MatchesGapsClean | arayuz/src/App.jsx:11-31 | no match starts before, between or after the matches found |
| MessageLinks.MatchesStep | arayuz/src/App.jsx:11-30 | one `exec` step: the next match, then the matches after it |
| MessageLinks.SegmentsStep | arayuz/src/App.jsx:11-30 | one loop pass: the text before the link, the link, then the rest |
| MessageLinks.SegmentsLast | arayuz/src/App.jsx:33-36 | after the last link only the remaining text is pushed |
| MessageLinks.PushText | arayuz/src/App.jsx:13-15 | the text between two positions is pushed when it is non-empty |
| MessageLinks.LoopStep | arayuz/src/App.jsx:11-31 | the loop invariant survives a pass |
| MessageLinks.ParseMessage | arayuz/src/App.jsx:5-39 | the loop returns the specified parts, or the text itself when there are none |
| MessageLinks.BuildFlatten | arayuz/src/App.jsx:11-36 | the parts spell out the text exactly |
| MessageLinks.NoLinkInGap | arayuz/src/App.jsx:13-15 | a text piece contains no link |
| MessageLinks.LinkWellFormed | arayuz/src/App.jsx:18-28 | a link part is the maximal match at its key |
| MessageLinks.BuildWellFormed | arayuz/src/App.jsx:11-36 | every text part is non-empty and link-free; every link part is a maximal match at its key |
| MessageLinks.BuildLinksInOrder | arayuz/src/App.jsx:11-31 | links come in increasing, non-touching positions |
| MessageLinks.BuildNoAdjacentText | arayuz/src/App.jsx:11-36 | no two text parts are adjacent |
| MessageLinks.ParseResultProperties | arayuz/src/App.jsx:5-39 | only "" comes back unchanged; otherwise the parts spell the text, are well formed, have links in order and no two adjacent text parts |

## Left out

- NFKC normalisation and `str.lower()` are parameters (`Preprocessing.UnicodeLibrary`). The properties assume that NFKC leaves text over the output alphabet alone and that lower-casing leaves the output characters alone (`Preprocessing.Faithful`). NormalizeOneLetter, CapitalDotlessI, CapitalDottedI and CapitalIsFoldApart also assume that NFKC leaves the one input letter unchanged.
- Preprocessing.CaseFold: its own contract states only that the length is kept; the in-place mapping of I, İ and the other characters is stated by CaseFoldMaps.
- Preprocessing.CollapseDottedI: its own contract states only that the text does not grow; which characters it removes is stated by CollapseDottedIDropsDots.
- Preprocessing.CollapseSpaces: its own contract states only the shape of the output; that words and other characters are kept is stated by CollapseSpacesKeepsWords and CollapseSpacesKeepsNonSpaces.
- Preprocessing.Normalize: its own contract states only the shape of the output; what it keeps of the input is stated by NormalizeIsJoinedWords.
- `sentence_split` is not modelled: it calls NLTK's punkt tokenizer, foreign code.
- TF-IDF vectorising, `linear_kernel` and the fitted vectorizer are a scoring-function parameter of the store. Scores are exact reals, not floats.
- VectorSearch.RankDescending: promises no order among equal scores. `np.argsort` is unstable and the result is reversed, so the code fixes no tie order either.
- The classifier, tokenizer, torch device and softmax are a parameter (`Nlp.Infer`). A `top_k` below 1 is modelled as an inference failure: with k = 0 `torch.topk` returns empty tensors and `top_indices[0][0]` raises `IndexError`; a negative k makes `torch.topk` raise.
- VectorSearch.Search, VectorSearch.SearchResult and Nlp.Predict require a row-aligned store (one score per metadata row), as training writes it (Training.BuildVectorMetadata). A misaligned store, on which `self.metadata[idx]` can raise `IndexError` or surplus rows are never returned, is not modelled.
- Nlp.FromDict: `int()` on a non-integer id (a string, a float) is not modelled. Ids are integers or absent. A JSON `null` reads as absent, so a `null` list field yields `[]` where `list(None)` would raise.
- Reading files (`joblib.load`, `json.load`, `pd.read_csv`) and writing them (`joblib.dump`, the JSON export) are left out. A file is given by its parsed contents, or by a map from paths to contents.
- The random split `train_test_split` is a parameter. So is the order in which `value_counts` lists the labels.
- Logging, and the Hugging Face `Dataset` conversion, tokenisation and column renames of `prepare_datasets`, are left out.
- Training.BuildLabelMapping: `groupby("answer")` followed by sorting by id is modelled as iterating the ids in order. Each answer has exactly one id, so the result is the same.
- Training.LoadDataset: `astype(str)` of non-string cells is not modelled. Cells are strings or missing.
- `parseMessage` returns React elements. Only their `key` (the match position) and link text are modelled; `href` equals that text. Positions count characters, not UTF-16 code units.
- Concurrency, the FastAPI routers, the database and the rest of `App.jsx` are outside this model.

## Findings

| source | as written | input that shows it | evidently intended | confidence | as-written member | corrected member |
|---|---|---|---|---|---|---|
| backend/app/services/nlp.py:66 | `payload.get("labels", payload)` calls `.get` on whatever `json.load` returned | a label mapping whose top level is the array of entries, e.g. `[{"id": 0}]`: a list has no `.get`, so loading raises | the fallback to `payload` is there to accept a top-level list of entries | not executed | Nlp.LabelEntriesAsWritten, Nlp.TopLevelArrayRejectedAsWritten | Nlp.LabelEntries |
