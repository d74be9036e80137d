/**
  The `MedicalRetriever` of retriever.py: which index variant is active, how an index is
  loaded from or written to disk, how `retrieve` dispatches, and how `get_best_answer`
  gates the top result with a confidence threshold.

  Files are modelled by name in a `Disk` map; what an index file holds is reduced to the
  corpus it carries. Everything a query needs from the foreign libraries (the TF-IDF
  similarity vector, numpy's argsort of it, and FAISS's search) arrives in a `Probe`.
 */
module Retriever {

  import opened Wrappers
  import opened Records
  import opened Ranking

  /** `get_best_answer`'s default confidence threshold. */
  const DefaultThreshold: real := 0.3

  /** Where the chatbot keeps its index. */
  const DefaultIndexPath: string := "data/retrieval_index"

  const FallbackAnswer: string :=
    "I'm sorry, I couldn't find a relevant answer to your question. Please consult with a healthcare professional for medical advice."

  /** The retriever's state: whether sentence-transformers and FAISS imported
      (`use_advanced`), the loaded corpus (`qa_data`, `None` until built or loaded),
      whether a FAISS index is held, and whether a fitted TF-IDF matrix is held. */
  datatype MedicalRetriever = MedicalRetriever(useAdvanced: bool, corpus: Option<seq<Record>>, hasIndex: bool, tfidfFitted: bool)

  /** In advanced mode the attribute `tfidf_matrix` exists only once a TF-IDF index file has
      been loaded, so `retrieve` would raise AttributeError reading it when there is a corpus
      but no FAISS index. A state is valid when that read cannot happen; every state the
      constructor, `load_index` and `build_index` produce is valid. */
  predicate Valid(r: MedicalRetriever) {
    r.useAdvanced && r.corpus.Some? && !r.hasIndex ==> r.tfidfFitted
  }

  /** `MedicalRetriever()`: the variant is fixed by whether the optional imports succeeded. */
  function NewRetriever(advancedAvailable: bool): (r: MedicalRetriever)
    ensures Valid(r) && r.corpus.None? && r.useAdvanced == advancedAvailable
  {
    MedicalRetriever(advancedAvailable, None, false, false)
  }

  /** The branch `retrieve` takes. */
  datatype Branch = NoCorpus | FaissBranch | TfidfBranch | NoIndex

  function BranchOf(r: MedicalRetriever): Branch {
    if r.corpus.None? then NoCorpus
    else if r.useAdvanced && r.hasIndex then FaissBranch
    else if r.tfidfFitted then TfidfBranch
    else NoIndex
  }

  /** The foreign libraries' answers for one query text: the TF-IDF cosine similarities
      against the stored matrix, numpy's argsort of them, and FAISS's search for a `top_k`. */
  datatype Probe = Probe(sims: seq<real>, order: seq<nat>, search: int -> FaissHits)

  /** On the TF-IDF branch the similarity vector has one entry per stored row, that is per
      corpus record, and `order` is an argsort of it. */
  predicate Fits(r: MedicalRetriever, p: Probe) {
    BranchOf(r) == TfidfBranch ==> |p.sims| == |r.corpus.value| && IsArgsort(p.sims, p.order)
  }

  /** `retrieve(query, top_k)`. */
  function Retrieve(r: MedicalRetriever, p: Probe, topK: int): (rs: seq<SearchResult>)
    requires Valid(r) && Fits(r, p)
    ensures r.corpus.None? ==> rs == []
    ensures !(r.useAdvanced && r.hasIndex) && !r.tfidfFitted ==> rs == []
    ensures BranchOf(r) == TfidfBranch ==> rs == RetrieveTfidf(r.corpus.value, p.sims, p.order, topK)
    ensures BranchOf(r) == FaissBranch ==> rs == CollectFaiss(r.corpus.value, p.search(topK), 0)
    ensures forall j :: 0 <= j < |rs| ==> rs[j].rank >= 1
  {
    match BranchOf(r)
    case NoCorpus => []
    case FaissBranch => CollectFaiss(r.corpus.value, p.search(topK), 0)
    case TfidfBranch => RetrieveTfidf(r.corpus.value, p.sims, p.order, topK)
    case NoIndex => []
  }

  /** The answer `get_best_answer` gives when nothing clears the threshold. */
  function Fallback(query: string): SearchResult {
    SearchResult(query, FallbackAnswer, "fallback", 0.0, 0)
  }

  /** `get_best_answer(query, threshold)`: the top result when there is one and its score
      reaches the threshold, the fallback otherwise; the two cases are told apart by the
      rank, which is 0 exactly on the fallback. */
  function GetBestAnswer(r: MedicalRetriever, query: string, p: Probe, threshold: real): (a: SearchResult)
    requires Valid(r) && Fits(r, p)
    ensures var top := Retrieve(r, p, 1);
      && (a == Fallback(query) <==> |top| == 0 || top[0].score < threshold)
      && (a != Fallback(query) ==> a == top[0] && a.score >= threshold)
    ensures a.rank == 0 <==> a == Fallback(query)
  {
    var results := Retrieve(r, p, 1);
    if |results| > 0 && results[0].score >= threshold then results[0] else Fallback(query)
  }

  /** Lowering the threshold never turns an accepted answer into a different one. */
  lemma ThresholdMonotone(r: MedicalRetriever, query: string, p: Probe, low: real, high: real)
    requires Valid(r) && Fits(r, p) && low <= high
    requires GetBestAnswer(r, query, p, high) != Fallback(query)
    ensures GetBestAnswer(r, query, p, low) == GetBestAnswer(r, query, p, high)
  {
  }

  /** On the TF-IDF branch the best answer is a most similar record, and the fallback comes
      exactly when no record is both positively similar and at least as similar as the
      threshold. */
  lemma BestAnswerIsMostSimilar(r: MedicalRetriever, query: string, p: Probe, threshold: real)
    requires Valid(r) && Fits(r, p) && BranchOf(r) == TfidfBranch
    ensures var a := GetBestAnswer(r, query, p, threshold);
      var corpus := r.corpus.value;
      && (a != Fallback(query) ==>
            exists x :: 0 <= x < |corpus| && a == ResultFor(corpus[x], p.sims[x], 1)
              && forall y :: 0 <= y < |corpus| ==> p.sims[y] <= p.sims[x])
      && (a == Fallback(query) ==>
            forall x :: 0 <= x < |corpus| ==> p.sims[x] <= 0.0 || p.sims[x] < threshold)
  {
    var hits := TfidfHits(p.sims, p.order, 1);
    TopHitIsMaximum(p.sims, p.order);
    if |hits| > 0 {
      var x := hits[0];
      assert GetBestAnswer(r, query, p, threshold) != Fallback(query) ==>
        GetBestAnswer(r, query, p, threshold) == ResultFor(r.corpus.value[x], p.sims[x], 1);
    }
  }

  // ---------------------------------------------------------------------------------
  // Index files

  /** What a file at a given name holds: a FAISS index; the pickle `_build_faiss_index`
      writes (keys `qa_data`, `embeddings`); the pickle `_build_tfidf_index` writes (keys
      `qa_data`, `vectorizer`, `tfidf_matrix`); or bytes the matching reader rejects. */
  datatype Artifact = FaissIndexData | FaissPickle(qa: seq<Record>) | TfidfPickle(qa: seq<Record>) | Unreadable

  type Disk = map<string, Artifact>

  function FaissIndexFile(path: string): string { path + ".faiss" }
  function FaissDataFile(path: string): string { path + ".pkl" }
  function TfidfDataFile(path: string): string { path + "_tfidf.pkl" }

  /** The three file names used for one base path never coincide, so the variants cannot
      overwrite each other. */
  lemma ArtifactNamesDistinct(path: string)
    ensures FaissIndexFile(path) != FaissDataFile(path)
    ensures FaissIndexFile(path) != TfidfDataFile(path)
    ensures FaissDataFile(path) != TfidfDataFile(path)
  {
    assert |FaissIndexFile(path)| == |path| + 6;
    assert |FaissDataFile(path)| == |path| + 4;
    assert |TfidfDataFile(path)| == |path| + 10;
  }

  datatype Loaded = Loaded(ok: bool, retriever: MedicalRetriever)

  /** `_load_faiss_index`: `faiss.read_index` runs first and sets `self.index`; the pickle
      is read afterwards, so a missing or unreadable pickle leaves the index set, and a
      TF-IDF pickle assigns `qa_data` before the missing `embeddings` key raises. */
  function LoadFaiss(r: MedicalRetriever, disk: Disk, path: string): Loaded
    requires FaissIndexFile(path) in disk
  {
    if disk[FaissIndexFile(path)] != FaissIndexData then Loaded(false, r)
    else
      var withIndex := r.(hasIndex := true);
      if FaissDataFile(path) !in disk then Loaded(false, withIndex)
      else match disk[FaissDataFile(path)]
        case FaissPickle(qa) => Loaded(true, withIndex.(corpus := Some(qa)))
        case TfidfPickle(qa) => Loaded(false, withIndex.(corpus := Some(qa)))
        case _ => Loaded(false, withIndex)
  }

  /** `_load_tfidf_index`: a FAISS pickle assigns `qa_data` before the missing `vectorizer`
      key raises. */
  function LoadTfidf(r: MedicalRetriever, disk: Disk, path: string): Loaded
    requires TfidfDataFile(path) in disk
  {
    match disk[TfidfDataFile(path)]
    case TfidfPickle(qa) => Loaded(true, r.(corpus := Some(qa), tfidfFitted := true))
    case FaissPickle(qa) => Loaded(false, r.(corpus := Some(qa)))
    case _ => Loaded(false, r)
  }

  /** `load_index(save_path)`: FAISS only in advanced mode and only when `<path>.faiss`
      exists, otherwise TF-IDF when `<path>_tfidf.pkl` exists, otherwise `False`; a reader
      that raises also gives `False`. A successful load leaves the retriever on the branch
      of the variant it read, holding the stored corpus. */
  function LoadIndex(r: MedicalRetriever, disk: Disk, path: string): (res: Loaded)
    ensures res.retriever.useAdvanced == r.useAdvanced
    ensures Valid(r) && res.ok ==> Valid(res.retriever)
    ensures !(r.useAdvanced && FaissIndexFile(path) in disk) && TfidfDataFile(path) !in disk ==> res == Loaded(false, r)
    ensures res.ok && r.useAdvanced && FaissIndexFile(path) in disk ==>
      && disk[FaissIndexFile(path)] == FaissIndexData
      && FaissDataFile(path) in disk && disk[FaissDataFile(path)].FaissPickle?
      && res.retriever.corpus == Some(disk[FaissDataFile(path)].qa)
      && BranchOf(res.retriever) == FaissBranch
    ensures res.ok && !(r.useAdvanced && FaissIndexFile(path) in disk) ==>
      && TfidfDataFile(path) in disk && disk[TfidfDataFile(path)].TfidfPickle?
      && res.retriever.corpus == Some(disk[TfidfDataFile(path)].qa)
      && BranchOf(res.retriever) == (if r.useAdvanced && r.hasIndex then FaissBranch else TfidfBranch)
    ensures !res.ok ==> res.retriever.tfidfFitted == r.tfidfFitted
    ensures (&& r.useAdvanced && FaissIndexFile(path) in disk
             && disk[FaissIndexFile(path)] == FaissIndexData
             && FaissDataFile(path) in disk && disk[FaissDataFile(path)].FaissPickle?) ==> res.ok
    ensures (&& !(r.useAdvanced && FaissIndexFile(path) in disk)
             && TfidfDataFile(path) in disk && disk[TfidfDataFile(path)].TfidfPickle?) ==> res.ok
    ensures r.useAdvanced && FaissIndexFile(path) in disk ==> res.retriever.tfidfFitted == r.tfidfFitted
    ensures r.useAdvanced && FaissIndexFile(path) in disk && disk[FaissIndexFile(path)] != FaissIndexData ==>
      res == Loaded(false, r)
  {
    if r.useAdvanced && FaissIndexFile(path) in disk then LoadFaiss(r, disk, path)
    else if TfidfDataFile(path) in disk then LoadTfidf(r, disk, path)
    else Loaded(false, r)
  }

  datatype Built = Built(retriever: MedicalRetriever, disk: Disk)

  /** The files `build_index` writes for a variant. */
  function Written(useAdvanced: bool, path: string): set<string> {
    if useAdvanced then {FaissIndexFile(path), FaissDataFile(path)} else {TfidfDataFile(path)}
  }

  /** `build_index(qa_df, save_path)` with `_build_faiss_index` or `_build_tfidf_index`:
      the retriever holds the corpus and the index of its variant, the variant's files hold
      the corpus, and no other file changes. */
  function BuildIndex(r: MedicalRetriever, qa: seq<Record>, disk: Disk, path: string): (b: Built)
    ensures b.retriever.useAdvanced == r.useAdvanced && b.retriever.corpus == Some(qa)
    ensures Valid(b.retriever)
    ensures BranchOf(b.retriever) == (if r.useAdvanced then FaissBranch else TfidfBranch)
    ensures forall name :: name !in Written(r.useAdvanced, path) ==>
      (name in b.disk <==> name in disk) && (name in disk ==> b.disk[name] == disk[name])
    ensures forall name :: name in Written(r.useAdvanced, path) ==> name in b.disk
  {
    if r.useAdvanced then
      Built(r.(corpus := Some(qa), hasIndex := true),
            disk[FaissIndexFile(path) := FaissIndexData][FaissDataFile(path) := FaissPickle(qa)])
    else
      Built(r.(corpus := Some(qa), tfidfFitted := true),
            disk[TfidfDataFile(path) := TfidfPickle(qa)])
  }

  /** Persistence round trip: loading what a fresh retriever built gives back exactly the
      retriever the build produced, whatever else was on disk. */
  lemma BuildThenLoad(advanced: bool, qa: seq<Record>, disk: Disk, path: string)
    ensures var b := BuildIndex(NewRetriever(advanced), qa, disk, path);
      LoadIndex(NewRetriever(advanced), b.disk, path) == Loaded(true, b.retriever)
  {
    ArtifactNamesDistinct(path);
  }
}
