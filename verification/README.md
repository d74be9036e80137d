# Medical_Chatbot — a Dafny model of the retrieval chatbot's decision logic

The chatbot answers a medical question in several steps:

- It parses the MedQuAD question/answer XML files into a corpus of records. When nothing is parsed, it falls back to three sample records.
- It indexes the questions either with FAISS over sentence embeddings ("advanced" mode) or with TF-IDF vectors. The index is persisted to disk and reloaded on the next start.
- For each user question it:
  - retrieves the most similar records;
  - accepts the best one only when its score reaches a confidence threshold;
  - recognises medical terms from a fixed lexicon by substring matching;
  - appends the recognised terms to the answer.

This project models the deterministic logic around the foreign libraries. Everything numeric or foreign arrives as an input:

- **Retrieval**:
  - The TF-IDF cosine similarities and numpy's argsort arrive as inputs. The argsort may be any valid argsort, because the sort is not stable.
  - FAISS's search output arrives as an input.
  - Given those, the model covers the `top_k` slice, the positive-score filter, the ranks and the threshold gate with its fallback answer.
- **Index persistence**: disk files are a map from name to artifact. The model covers which loader `load_index` chooses, what each loader assigns before it fails, and what `build_index` writes.
- **Entities**: the three-category lexicon, substring matching on the (ASCII) lower-cased text, deduplication, and the token window around the first occurrence of an entity. Tokens are inputs.
- **Dataset processing**: the rule that keeps a QAPair, which directories and `.xml` files are read and in what order, and the sample-data fallback.
- **Chatbot**: the `is_initialized` guard, load-or-build initialisation, response assembly, `_enhance_answer` and `add_disclaimer`.

Modules:

- `Text`: Python string and slice helpers.
- `Records`: records and result dictionaries.
- `Ranking`: the TF-IDF and FAISS result loops.
- `Retriever`: the `MedicalRetriever` state, dispatch and persistence.
- `Entities`: the entity recogniser.
- `DataProcessor`: MedQuAD parsing and fallback.
- `Chatbot`: the chatbot itself.

## Model

| member | source | states |
|---|---|---|
| Text.Strip | data_processor.py:65-66 | `strip()` gives "" exactly when the text is all whitespace, and otherwise neither starts nor ends with whitespace |
| Text.StripKeepsMiddle | data_processor.py:65-66 | `strip()` removes only whitespace and only at the two ends: the result occurs in the text between a leading and a trailing run of whitespace |
| Text.Contains | entity_recognizer.py:62 | `p in s` holds exactly when `p` occurs contiguously somewhere in `s` |
| Text.BasenameOfJoin | data_processor.py:48-73 | the base name of `os.path.join(dir_path, filename)` is the listed file name itself |
| Text.Lower | entity_recognizer.py:49 | `lower()` keeps the length and leaves no ASCII upper-case letter; a character that is not upper-case is kept, and an upper-case one moves 32 code points up to its lower-case partner |
| Text.SliceIndex | entity_recognizer.py:80 | a Python slice bound lands in `[0, n]`: a bound already in range is kept, a negative one counts from the end, and one beyond either end is clamped to that end |
| Text.PySlice | entity_recognizer.py:80 | `tokens[start:end]` has length `max(0, b - a)` for the normalised bounds `a` and `b`, and its `k`-th element is the sequence's element `a + k` |
| Ranking.TopIndices | retriever.py:151 | `argsort()[-top_k:][::-1]` keeps `n - s` positions, where `s` is Python's start for `[-top_k:]`; they are the argsort's last positions, highest score first |
| Ranking.TopIndicesAreTopSlice | retriever.py:151 | the kept positions are distinct, in range and non-increasing in score; no left-out record scores above a kept one; with `top_k = 0` every record is kept |
| Ranking.TfidfHits | retriever.py:151-155 | the positions reported are distinct, in range and positive; their scores are non-increasing; for `top_k >= 1` there are at most `top_k` of them |
| Ranking.TfidfHitsAreTopK | retriever.py:151-155 | no omitted record scores above the lowest reported one; `top_k = 0` reports every positive record; for `top_k >= 1` a positive record is omitted only when `top_k` were reported |
| Ranking.TopHitIsMaximum | retriever.py:151-155 | with `top_k = 1` the single reported record is a most similar one; nothing is reported only when no record is positive |
| Ranking.RetrieveTfidf | retriever.py:146-165 | the j-th result carries the question, answer and source of the record at the j-th reported position, with that record's similarity as score and rank j + 1 |
| Ranking.RetrieveTfidfRanked | retriever.py:151-162 | the TF-IDF results number at most `top_k`; their scores are positive and non-increasing; their ranks are exactly 1..n |
| Ranking.SomeArgsort | retriever.py:151 | every similarity vector has an argsort (a permutation of its positions ascending by score), so the ranking's precondition can always be met |
| Ranking.FaissPaddingReportsLastRecord | retriever.py:130-142 | with FAISS's id −1 padding, the loop as written reports the last corpus record as an extra result, while the corrected loop does not |
| Ranking.CollectFaiss | retriever.py:132-144 | every FAISS result comes from a search row whose id is a real corpus position; it carries that record with the row's score, and rank = row + 1 |
| Ranking.CollectFaissAscending | retriever.py:132-144 | the FAISS results are in search order: ranks strictly increase |
| Ranking.CollectFaissComplete | retriever.py:132-144 | every search row whose id is a real corpus position is reported, under rank = row + 1 |
| Retriever.NewRetriever | retriever.py:18-28 | a fresh retriever has no corpus, is in the mode the imports allow, and is in a valid state |
| Retriever.Retrieve | retriever.py:113-123 | the result is `[]` without a corpus, and `[]` when there is neither a FAISS index in advanced mode nor a TF-IDF matrix; otherwise it is the FAISS path's result, using the corrected guard of the Findings table, or the TF-IDF path's result; every rank is at least 1 |
| Retriever.GetBestAnswer | retriever.py:167-180 | the answer is the top result exactly when there is one and its score reaches the threshold, and the fallback (echoed question, source "fallback", score 0.0) otherwise; rank 0 marks the fallback |
| Retriever.ThresholdMonotone | retriever.py:167-172 | lowering the threshold never changes an accepted answer |
| Retriever.BestAnswerIsMostSimilar | retriever.py:151-172 | on the TF-IDF branch an accepted answer is a most similar record; the fallback comes exactly when no record is positive and at or above the threshold |
| Retriever.ArtifactNamesDistinct | retriever.py:52-68 | the names `<path>.faiss`, `<path>.pkl` and `<path>_tfidf.pkl` are pairwise distinct |
| Retriever.LoadIndex | retriever.py:77-111 | FAISS is loaded only in advanced mode when `<path>.faiss` exists; otherwise TF-IDF is loaded when `<path>_tfidf.pkl` exists; otherwise the result is `False` with nothing changed; success requires readable artifacts of that variant and leaves their corpus on that branch; conversely readable artifacts of the variant chosen always load; in advanced mode an existing `<path>.faiss` that is unreadable gives `False` with nothing changed, with no fallback to TF-IDF |
| Retriever.BuildIndex | retriever.py:30-75 | the built retriever holds the corpus on its variant's branch, writes only its variant's files, and leaves every other file unchanged |
| Retriever.BuildThenLoad | retriever.py:30-111 | a fresh retriever loading what a fresh retriever built succeeds and gets exactly the built retriever back |
| Entities.Matching | entity_recognizer.py:60-63 | a lexicon member is reported exactly when it occurs as a substring of the text |
| Entities.Dedupe | entity_recognizer.py:66-67 | `list(set(xs))` has the same members as `xs`, each once |
| Entities.ExtractEntities | entity_recognizer.py:46-69 | the categories follow the lexicon's keys; each reports exactly its own lexicon members that occur in the lower-cased text, without duplicates |
| Entities.EntityKeys | entity_recognizer.py:53-57 | the keys are exactly `symptoms`, `diseases` and `treatments` |
| Entities.CaseInsensitive | entity_recognizer.py:49 | the result depends only on the lower-cased text |
| Entities.BackPainReportsPain | entity_recognizer.py:60-63 | a text mentioning "back pain" also reports "pain", because matching is by substring |
| Entities.GetEntityContext | entity_recognizer.py:71-82 | the result is "" when the entity tokens never occur contiguously; otherwise it is the space-joined window around the FIRST occurrence |
| Entities.WindowHoldsEntity | entity_recognizer.py:76-80 | with a non-negative window, the context holds the entity contiguously with at most `window` tokens on each side |
| DataProcessor.KeepPair | data_processor.py:64-74 | a QAPair is kept exactly when both children exist and neither text is blank; the record holds the stripped texts, the source directory and the file name |
| DataProcessor.PairRecords | data_processor.py:64-74 | each pair contributes at most one record, which is well formed and labelled with the file's source and name |
| DataProcessor.ParsePairs | data_processor.py:60-74 | at most one record per pair; every record is stripped and non-empty, with the file's source and name |
| DataProcessor.ParsePairsAppend | data_processor.py:60-69 | records keep the document order of their QAPair elements |
| DataProcessor.ParsePairsSingle | data_processor.py:64-74 | a single pair yields its record under the keep rule and nothing otherwise |
| DataProcessor.ParseSingleXml | data_processor.py:53-78 | a file the XML parser rejects contributes no records; an accepted file contributes its kept pairs, labelled with its base name |
| DataProcessor.EntryRecords | data_processor.py:47-49 | a listed entry contributes well-formed records labelled with its directory, and only when its name ends in `.xml` is it read |
| DataProcessor.DirectoryRecords | data_processor.py:44-49 | a directory contributes well-formed records labelled with its own name, and nothing when it does not exist |
| DataProcessor.ParseEntries | data_processor.py:46-49 | every record read from a listing is well formed and labelled with that directory |
| DataProcessor.ParseDirectories | data_processor.py:43-49 | every record is well formed and names one of the directories read |
| DataProcessor.ParseXmlFiles | data_processor.py:31-51 | every record is well formed and names one of the eleven listed directories as its source |
| DataProcessor.ParseDirectoriesAppend | data_processor.py:43-49 | directories contribute in list order |
| DataProcessor.ParseEntriesAppend | data_processor.py:46-49 | files contribute in listing order |
| DataProcessor.SkipsNonXml | data_processor.py:47 | a file whose name does not end in `.xml` contributes nothing |
| DataProcessor.FileRecordsCarryName | data_processor.py:48-73 | the records of one listed file carry the listed file name |
| DataProcessor.EntryRecordsNameXmlFiles | data_processor.py:46-73 | every record read from a listing names a `.xml` file |
| DataProcessor.SampleDataWellFormed | data_processor.py:94-115 | the three sample records have stripped, non-empty questions and answers |
| DataProcessor.ProcessDataset | data_processor.py:80-92 | the result is never empty and always well formed; it is exactly the sample data when nothing was parsed, and the parsed records otherwise |
| Chatbot.NewChatbot | chatbot.py:8-12 | a new chatbot is not initialised and its retriever holds no corpus |
| Chatbot.InitializeWith | chatbot.py:30-36 | given the knowledge base, the chatbot always ends initialised; it builds from that knowledge base only when loading fails, and a successful load writes no index file; afterwards retrieval is served by FAISS or TF-IDF |
| Chatbot.Initialize | chatbot.py:14-36 | the chatbot always ends initialised; it builds only when loading fails, and a successful load writes no index file; afterwards retrieval is served by FAISS or TF-IDF |
| Chatbot.RestartReloadsWith | chatbot.py:30-36 | for any two knowledge bases, initialising a fresh chatbot on the disk a first run left reloads exactly that run's retriever and writes no index file |
| Chatbot.RestartReloads | chatbot.py:14-36 | initialising a fresh chatbot on the disk a first run left reloads exactly that run's retriever and writes no index file |
| Chatbot.LinesAppend | chatbot.py:72-74 | the category lines follow the category order |
| Chatbot.LinesEmpty | chatbot.py:67-76 | the lines are empty exactly when no category reports an entity |
| Chatbot.EnhanceAnswer | chatbot.py:65-76 | without entities the answer is unchanged; otherwise it is the answer, then the header, then the category lines, so the answer is a strict prefix |
| Chatbot.GetResponse | chatbot.py:38-63 | before initialisation the result is the fixed error response; afterwards confidence, source and original question come from the best answer, and the answer is that answer enhanced with the question's entities |
| Chatbot.ConfidentOrFallback | chatbot.py:38-63 | an initialised chatbot either is at least 0.3 confident or gives the fallback, and the retrieved answer always opens the response |
| Chatbot.GetSimilarQuestions | chatbot.py:78-83 | nothing before initialisation, the retriever's results afterwards; on the TF-IDF branch these are ranked 1..n and number at most `top_k` |
| Chatbot.AddDisclaimer | chatbot.py:85-88 | the response is kept intact as a prefix, followed by the fixed disclaimer |

## Left out

- TF-IDF fitting, cosine similarity, sentence embeddings, L2 normalisation and the FAISS search. These are foreign floating-point numerics; their outputs are the inputs in `Retriever.Probe`.
- numpy's tie order in `argsort`. Any valid argsort is accepted and no property depends on the tie order.
- File I/O: the download, zip extraction, `ET.parse`, CSV reading and writing, pickle and `faiss.write_index`.
  - A file is its parsed content, or a marker that it is unreadable.
  - The processed CSV is an optional input of `Chatbot.Initialize`, and `process_dataset` does not model its CSV write.
  - A CSV that pandas cannot read would make `initialize` raise; this is not modelled.
- Pickles missing some keys. Only whole pickles of either builder, or unreadable ones, are modelled. Reading one builder's pickle with the other loader is modelled: `qa_data` is assigned, then the loader raises.
- Exceptions from `build_index`, such as an empty TF-IDF vocabulary. `build_index` is modelled as always succeeding.
- NLTK tokenisation and stop words. Token sequences are inputs of `Entities.GetEntityContext`. The filtered token list in `extract_entities` is never used, so it has no counterpart.
- Retriever.NewRetriever: always succeeds. `SentenceTransformer(model_name)` at retriever.py:23 loads a model and can raise in advanced mode; that failure is not modelled.
- Retriever.Retrieve: the FAISS branch uses the corrected guard `0 <= idx < len(qa_data)` (`Ranking.CollectFaiss`), not the loop as written at retriever.py:134. The as-written loop is `Ranking.CollectFaissAsWritten`, and the Findings table shows where they differ.
- Chatbot.Initialize: `initialize` calls `process_dataset` before `load_index` whenever the processed CSV is missing (chatbot.py:22-28), even when loading then succeeds. That call downloads and extracts the dataset and writes the CSV (data_processor.py:21-28, 90), and an exception there leaves the chatbot uninitialised. The model takes the knowledge base first as well (`Chatbot.KnowledgeBase`), but does not model the download, the CSV write or those exceptions; its `disk` holds index files only.
- Text.Lower: models `str.lower` only on ASCII letters. Non-ASCII case mappings are left out.
- Text.Strip: models ASCII whitespace only.
- `str.title`: modelled on ASCII only.
- Entities.Dedupe: fixes an order, keeping first occurrences in lexicon order. In Python both the iteration over each category's `set` (entity_recognizer.py:61) and `list(set(...))` (entity_recognizer.py:67) have an unspecified order that string hashing can change from run to run. The model therefore fixes the order of the entities within a category, and with it the text of each category line of `_enhance_answer` (chatbot.py:74) that `Chatbot.GetResponse` and `Chatbot.EnhanceAnswer` state. Python promises that text only up to a reordering of the names within each line. Which entities are reported, and which categories get a line, do not depend on the order.
- Entities.WindowHoldsEntity: covers only a non-negative window. With a negative window the slice does not hold the entity.
- The retriever's `embeddings`, `vectorizer` and `model` attributes. Only whether an index or a fitted matrix is held is modelled.
- `Retriever.Valid` excludes one state: advanced mode with a corpus but neither a FAISS index nor a TF-IDF matrix, where `retrieve` would raise AttributeError. A fresh retriever, every successful load and every build give a valid state.
- app.py: the Streamlit UI, session state and caching. The threshold slider there is never passed to the chatbot, so the default threshold of 0.3 is the one modelled.
- setup.py: package installation and NLTK downloads.
- Logging through `print`, and concurrency.

## Findings

| source | as written | input that shows it | evidently intended | confidence | as-written member | corrected member |
|---|---|---|---|---|---|---|
| retriever.py:134 | `if idx < len(self.qa_data)` accepts FAISS's padding id −1, and `iloc[-1]` then reads the last record | a 2-record corpus searched with `top_k = 3`: ids `[0, 1, -1]` give three results, the third repeating the last record with score −3.4e38 | skip ids outside `0 <= idx < len` | not executed | Ranking.FaissPaddingReportsLastRecord | Ranking.CollectFaiss |
