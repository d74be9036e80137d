/**
  The `MedicalChatbot` of chatbot.py: the `is_initialized` guard, load-or-build
  initialisation, and the assembly of a response from the retriever's best answer and the
  recognised entities.
 */
module Chatbot {

  import opened Wrappers
  import opened Text
  import opened Records
  import opened Ranking
  import opened Retriever
  import opened Entities
  import opened DataProcessor

  datatype MedicalChatbot = MedicalChatbot(initialized: bool, retriever: MedicalRetriever)

  /** `MedicalChatbot()`: not yet initialised, with a fresh retriever. */
  function NewChatbot(advancedAvailable: bool): (bot: MedicalChatbot)
    ensures !bot.initialized && Valid(bot.retriever) && bot.retriever.corpus.None?
    ensures bot.retriever.useAdvanced == advancedAvailable
  {
    MedicalChatbot(false, NewRetriever(advancedAvailable))
  }

  datatype Initialized = Initialized(bot: MedicalChatbot, disk: Disk)

  /** The knowledge base `initialize` hands to `build_index`: the processed CSV when it
      exists (`csv`), the freshly processed dataset otherwise. */
  function KnowledgeBase(csv: Option<seq<Record>>, dataset: Dataset): seq<Record> {
    if csv.Some? then csv.value else ProcessDataset(dataset)
  }

  /** `initialize()` once its knowledge base `qa` is in hand: load the index from
      `data/retrieval_index`, build it from `qa` only when loading fails, and end
      initialised. A load that succeeds writes no index file; either way the retriever
      ends holding a corpus on a live branch. */
  function InitializeWith(bot: MedicalChatbot, qa: seq<Record>, disk: Disk): (res: Initialized)
    ensures res.bot.initialized
    ensures res.bot.retriever.useAdvanced == bot.retriever.useAdvanced
    ensures var loaded := LoadIndex(bot.retriever, disk, DefaultIndexPath);
      && (loaded.ok ==> res.bot.retriever == loaded.retriever && res.disk == disk)
      && (!loaded.ok ==> res.bot.retriever.corpus == Some(qa)
                         && BranchOf(res.bot.retriever) == (if bot.retriever.useAdvanced then FaissBranch else TfidfBranch))
    ensures Valid(bot.retriever) ==> Valid(res.bot.retriever)
    ensures Valid(bot.retriever) ==> BranchOf(res.bot.retriever) in {FaissBranch, TfidfBranch}
  {
    var loaded := LoadIndex(bot.retriever, disk, DefaultIndexPath);
    if loaded.ok then
      Initialized(MedicalChatbot(true, loaded.retriever), disk)
    else
      var built := BuildIndex(loaded.retriever, qa, disk, DefaultIndexPath);
      Initialized(MedicalChatbot(true, built.retriever), built.disk)
  }

  /** `initialize()`: the knowledge base is taken first, then the index is loaded, or built
      from it when loading fails. */
  function Initialize(bot: MedicalChatbot, csv: Option<seq<Record>>, dataset: Dataset, disk: Disk): (res: Initialized)
    ensures res.bot.initialized
    ensures res.bot.retriever.useAdvanced == bot.retriever.useAdvanced
    ensures var loaded := LoadIndex(bot.retriever, disk, DefaultIndexPath);
      && (loaded.ok ==> res.bot.retriever == loaded.retriever && res.disk == disk)
      && (!loaded.ok ==> res.bot.retriever.corpus == Some(KnowledgeBase(csv, dataset))
                         && BranchOf(res.bot.retriever) == (if bot.retriever.useAdvanced then FaissBranch else TfidfBranch))
    ensures Valid(bot.retriever) ==> Valid(res.bot.retriever)
    ensures Valid(bot.retriever) ==> BranchOf(res.bot.retriever) in {FaissBranch, TfidfBranch}
  {
    InitializeWith(bot, KnowledgeBase(csv, dataset), disk)
  }

  /** A restart over any knowledge base: a fresh chatbot initialised on the disk a first run
      left reloads that run's retriever and writes no index file, whatever knowledge base it
      is offered. */
  lemma RestartReloadsWith(advanced: bool, qa: seq<Record>, disk: Disk, qa2: seq<Record>)
    ensures var first := InitializeWith(NewChatbot(advanced), qa, disk);
      InitializeWith(NewChatbot(advanced), qa2, first.disk) == first
  {
    var start := NewRetriever(advanced);
    var path := DefaultIndexPath;
    var loaded := LoadIndex(start, disk, path);
    if !loaded.ok {
      var built := BuildIndex(loaded.retriever, qa, disk, path);
      var direct := BuildIndex(start, qa, disk, path);
      assert built == direct;
      BuildThenLoad(advanced, qa, disk, path);
    }
  }

  /** A restarted chatbot finds what the first run left on disk: initialising a fresh
      chatbot again reloads exactly the retriever the first run ended with and writes
      no index file, whatever the knowledge base offered the second time. */
  lemma RestartReloads(advanced: bool, csv: Option<seq<Record>>, dataset: Dataset, disk: Disk,
                       csv2: Option<seq<Record>>, dataset2: Dataset)
    ensures var first := Initialize(NewChatbot(advanced), csv, dataset, disk);
      Initialize(NewChatbot(advanced), csv2, dataset2, first.disk) == first
  {
    RestartReloadsWith(advanced, KnowledgeBase(csv, dataset), disk, KnowledgeBase(csv2, dataset2));
  }

  /** A response dictionary; `original_question` is absent from the not-initialised one. */
  datatype Response = Response(answer: string, entities: seq<Entry>, confidence: real, source: string,
                               originalQuestion: Option<string>)

  const NotInitializedAnswer: string := "Chatbot is not initialized. Please wait..."

  const Header: string := "\n\n**Identified medical terms:**\n"

  /** The line `_enhance_answer` writes for one category: none for an empty list. */
  function Line(e: Entry): string {
    if e.values == [] then "" else "- " + Title(e.key) + ": " + Join(", ", e.values) + "\n"
  }

  function Lines(es: seq<Entry>): string {
    ConcatMap(Line, es)
  }

  /** Some category reports an entity: Python's `any(entities.values())`. */
  predicate AnyEntity(es: seq<Entry>) {
    exists k :: 0 <= k < |es| && es[k].values != []
  }

  /** The lines follow the categories in order: the lines of consecutive runs of
      categories are concatenated. */
  lemma LinesAppend(a: seq<Entry>, b: seq<Entry>)
    ensures Lines(a + b) == Lines(a) + Lines(b)
  {
    ConcatMapAppend(Line, a, b);
  }

  /** There is a line exactly when some category is non-empty. */
  lemma {:induction false} LinesEmpty(es: seq<Entry>)
    ensures Lines(es) == "" <==> !AnyEntity(es)
  {
    if es != [] {
      assert Lines(es) == Line(es[0]) + Lines(es[1..]);
      LinesEmpty(es[1..]);
      if es[0].values != [] {
        assert |Line(es[0])| > 0;
      }
      if AnyEntity(es[1..]) {
        var k :| 0 <= k < |es[1..]| && es[1..][k].values != [];
        assert es[k + 1].values != [];
      }
      if AnyEntity(es) && es[0].values == [] {
        var k :| 0 <= k < |es| && es[k].values != [];
        assert es[1..][k - 1].values != [];
      }
    }
  }

  /** `_enhance_answer(answer, entities)`: the answer unchanged when no category reports an
      entity; otherwise the answer, the header, and one line per non-empty category in
      category order, so the answer is a strict prefix. */
  function EnhanceAnswer(answer: string, entities: seq<Entry>): (r: string)
    ensures !AnyEntity(entities) ==> r == answer
    ensures AnyEntity(entities) ==>
      && |r| > |answer| + |Header| && r[..|answer|] == answer
      && r[|answer|..|answer| + |Header|] == Header
      && r[|answer| + |Header|..] == Lines(entities)
  {
    LinesEmpty(entities);
    if !AnyEntity(entities) then answer
    else
      var r := answer + Header + Lines(entities);
      assert r[..|answer|] == answer;
      assert r[|answer|..|answer| + |Header|] == Header;
      r
  }

  /** `get_response(user_question)`: before initialisation the fixed "not initialized"
      response; afterwards the best answer's score, source and question with the answer
      enhanced by the entities recognised in the question. */
  function GetResponse(bot: MedicalChatbot, question: string, p: Probe): (r: Response)
    requires bot.initialized ==> Valid(bot.retriever) && Fits(bot.retriever, p)
    ensures !bot.initialized ==> r == Response(NotInitializedAnswer, [], 0.0, "error", None)
    ensures bot.initialized ==>
      var best := GetBestAnswer(bot.retriever, question, p, DefaultThreshold);
      && r.confidence == best.score && r.source == best.source && r.originalQuestion == Some(best.question)
      && r.entities == ExtractEntities(question)
      && r.answer == EnhanceAnswer(best.answer, r.entities)
  {
    if !bot.initialized then
      Response(NotInitializedAnswer, [], 0.0, "error", None)
    else
      var entities := ExtractEntities(question);
      var best := GetBestAnswer(bot.retriever, question, p, DefaultThreshold);
      Response(EnhanceAnswer(best.answer, entities), entities, best.score, best.source, Some(best.question))
  }

  /** An initialised chatbot either is at least 0.3 confident or gives the fallback, echoing
      the question with source "fallback" and confidence 0.0; in both cases the retrieved
      answer opens the response. */
  lemma ConfidentOrFallback(bot: MedicalChatbot, question: string, p: Probe)
    requires bot.initialized && Valid(bot.retriever) && Fits(bot.retriever, p)
    ensures var r := GetResponse(bot, question, p);
      var best := GetBestAnswer(bot.retriever, question, p, DefaultThreshold);
      && (r.confidence >= DefaultThreshold
          || (r.source == "fallback" && r.confidence == 0.0 && r.originalQuestion == Some(question)
              && r.answer[..|FallbackAnswer|] == FallbackAnswer))
      && |best.answer| <= |r.answer| && r.answer[..|best.answer|] == best.answer
  {
  }

  /** `get_similar_questions(user_question, top_k)`: nothing before initialisation, the
      retriever's results afterwards (each with a rank of at least 1, and at most `top_k`
      of them on the TF-IDF branch). */
  function GetSimilarQuestions(bot: MedicalChatbot, p: Probe, topK: int): (rs: seq<SearchResult>)
    requires bot.initialized ==> Valid(bot.retriever) && Fits(bot.retriever, p)
    ensures !bot.initialized ==> rs == []
    ensures bot.initialized ==> rs == Retrieve(bot.retriever, p, topK)
    ensures forall j :: 0 <= j < |rs| ==> rs[j].rank == j + 1 || BranchOf(bot.retriever) == FaissBranch
    ensures bot.initialized && BranchOf(bot.retriever) == TfidfBranch && topK >= 1 ==> |rs| <= topK
  {
    if !bot.initialized then []
    else
      if BranchOf(bot.retriever) == TfidfBranch then
        RetrieveTfidfRanked(bot.retriever.corpus.value, p.sims, p.order, topK);
        Retrieve(bot.retriever, p, topK)
      else Retrieve(bot.retriever, p, topK)
  }

  const Disclaimer: string :=
    "\n\n\U{26A0}\U{FE0F} **Medical Disclaimer**: This information is for educational purposes only and should not replace professional medical advice. Always consult with a healthcare provider for medical concerns."

  /** `add_disclaimer(response)`: the response, untouched, followed by the disclaimer. */
  function AddDisclaimer(response: string): (r: string)
    ensures |r| == |response| + |Disclaimer|
    ensures r[..|response|] == response && r[|response|..] == Disclaimer
  {
    response + Disclaimer
  }
}
