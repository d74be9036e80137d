/**
  The `MedicalEntityRecognizer` of entity_recognizer.py: a fixed three-category lexicon
  matched by substring against the lower-cased question, and the token window around the
  first occurrence of an entity. Tokenisation (`word_tokenize`) is foreign: token
  sequences arrive as inputs.
 */
module Entities {

  import opened Text

  /** One category of the result dictionary: its key and the entities found. */
  datatype Entry = Entry(key: string, values: seq<string>)

  const Symptoms: seq<string> := [
    "fever", "headache", "cough", "fatigue", "nausea", "vomiting", "diarrhea",
    "chest pain", "shortness of breath", "dizziness", "weakness", "pain",
    "swelling", "rash", "itching", "bleeding", "numbness", "tingling",
    "blurred vision", "difficulty breathing", "abdominal pain", "back pain",
    "joint pain", "muscle pain", "sore throat", "runny nose", "congestion"
  ]

  const Diseases: seq<string> := [
    "diabetes", "hypertension", "asthma", "cancer", "heart disease",
    "stroke", "pneumonia", "bronchitis", "arthritis", "osteoporosis",
    "depression", "anxiety", "migraine", "epilepsy", "alzheimer",
    "parkinson", "tuberculosis", "hepatitis", "kidney disease",
    "liver disease", "thyroid disorder", "anemia", "obesity"
  ]

  const Treatments: seq<string> := [
    "medication", "surgery", "therapy", "exercise", "diet", "rest",
    "antibiotics", "insulin", "chemotherapy", "radiation", "physical therapy",
    "counseling", "vaccination", "immunization", "prescription",
    "over-the-counter", "treatment", "procedure", "operation"
  ]

  /** `_load_medical_entities`, with the categories in the order of the result dictionary
      `extract_entities` builds. */
  const Lexicon: seq<Entry> := [
    Entry("symptoms", Symptoms), Entry("diseases", Diseases), Entry("treatments", Treatments)
  ]

  /** The lexicon members of one category that occur in `text`, in lexicon order. */
  function Matching(values: seq<string>, text: string): (found: seq<string>)
    ensures forall v :: v in found <==> v in values && Contains(text, v)
  {
    if values == [] then []
    else
      var rest := Matching(values[1..], text);
      if Contains(text, values[0]) then [values[0]] + rest else rest
  }

  /** `list(set(xs))`: the same members, each once. Python leaves the order to the set's
      iteration; this keeps first occurrences. */
  function Dedupe(xs: seq<string>): (ys: seq<string>)
    ensures forall v :: v in ys <==> v in xs
    ensures forall i, j :: 0 <= i < j < |ys| ==> ys[i] != ys[j]
  {
    if xs == [] then []
    else
      var init := xs[..|xs| - 1];
      var last := xs[|xs| - 1];
      assert xs == init + [last];
      var rest := Dedupe(init);
      if last in rest then rest else rest + [last]
  }

  /** `extract_entities(text)`: the three categories, each reporting exactly the members of
      its own lexicon entry that occur as substrings of the lower-cased text, without
      duplicates. */
  function ExtractEntities(text: string): (es: seq<Entry>)
    ensures |es| == |Lexicon|
    ensures forall k :: 0 <= k < |es| ==> es[k].key == Lexicon[k].key
    ensures forall k, v :: 0 <= k < |es| ==>
      (v in es[k].values <==> v in Lexicon[k].values && Contains(Lower(text), v))
    ensures forall k, i, j :: 0 <= k < |es| && 0 <= i < j < |es[k].values| ==>
      es[k].values[i] != es[k].values[j]
  {
    var lowered := Lower(text);
    seq(|Lexicon|, k requires 0 <= k < |Lexicon| =>
      Entry(Lexicon[k].key, Dedupe(Matching(Lexicon[k].values, lowered))))
  }

  /** The result keys are exactly `symptoms`, `diseases` and `treatments`, in that order. */
  lemma EntityKeys(text: string)
    ensures var es := ExtractEntities(text);
      |es| == 3 && es[0].key == "symptoms" && es[1].key == "diseases" && es[2].key == "treatments"
  {
  }

  /** Matching sees only the lower-cased text. */
  lemma CaseInsensitive(text: string)
    ensures ExtractEntities(Lower(text)) == ExtractEntities(text)
  {
    LowerIdempotent(text);
  }

  /** Matching is by substring, not by token: a question mentioning "back pain" also
      reports "pain". */
  lemma BackPainReportsPain(text: string)
    requires Contains(Lower(text), "back pain")
    ensures var symptoms := ExtractEntities(text)[0].values;
      "back pain" in symptoms && "pain" in symptoms
  {
    var lowered := Lower(text);
    var i :| OccursAt(lowered, "back pain", i);
    assert lowered[i + 5..i + 9] == "back pain"[5..9];
    assert OccursAt(lowered, "pain", i + 5);
    assert "pain" in Symptoms && "back pain" in Symptoms;
  }

  // ---------------------------------------------------------------------------------
  // Context window

  /** `i` is the first position where `entity` occurs contiguously in `tokens`. */
  predicate FirstOccurrence(tokens: seq<string>, entity: seq<string>, i: int) {
    OccursAt(tokens, entity, i) && forall j :: 0 <= j < i ==> !OccursAt(tokens, entity, j)
  }

  /** `tokens[start:end]` with `start = max(0, i - window)` and
      `end = min(len(tokens), i + m + window)` for an entity of `m` tokens at `i`. */
  function ContextWindow(tokens: seq<string>, m: nat, i: int, window: int): seq<string> {
    var start := if i - window < 0 then 0 else i - window;
    var end := if |tokens| < i + m + window then |tokens| else i + m + window;
    PySlice(tokens, start, end)
  }

  /** `get_entity_context(text, entity, window)` over the token sequences of the lower-cased
      text and entity: "" when the entity does not occur, otherwise the space-joined window
      around its first occurrence. */
  method GetEntityContext(tokens: seq<string>, entity: seq<string>, window: int) returns (context: string)
    ensures (forall i :: !OccursAt(tokens, entity, i)) ==> context == ""
    ensures (exists i :: OccursAt(tokens, entity, i)) ==>
      exists i :: FirstOccurrence(tokens, entity, i)
        && context == Join(" ", ContextWindow(tokens, |entity|, i, window))
  {
    var n := |tokens|;
    var m := |entity|;
    var i := 0;
    while i < n - m + 1
      invariant 0 <= i
      invariant forall j :: 0 <= j < i ==> !OccursAt(tokens, entity, j)
    {
      if tokens[i..i + m] == entity {
        assert FirstOccurrence(tokens, entity, i);
        var start := if i - window < 0 then 0 else i - window;
        var end := if n < i + m + window then n else i + m + window;
        return Join(" ", PySlice(tokens, start, end));
      }
      i := i + 1;
    }
    return "";
  }

  /** With a non-negative window, the context holds the entity contiguously with at most
      `window` tokens before and after it. */
  lemma WindowHoldsEntity(tokens: seq<string>, entity: seq<string>, i: int, window: int)
    requires OccursAt(tokens, entity, i) && window >= 0
    ensures var w := ContextWindow(tokens, |entity|, i, window);
      var before := if i - window < 0 then i else window;
      && OccursAt(w, entity, before)
      && before <= window
      && |w| - before - |entity| <= window
  {
    var w := ContextWindow(tokens, |entity|, i, window);
    var start := if i - window < 0 then 0 else i - window;
    var before := i - start;
    assert w[before..before + |entity|] == tokens[i..i + |entity|];
  }
}
