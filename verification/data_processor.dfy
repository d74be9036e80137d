/**
  The `MedQuADProcessor` of data_processor.py after the download: which QAPair elements
  become records, which files of which directories are read, and the sample data used
  when nothing was parsed. XML parsing is foreign: a file arrives as the sequence of its
  QAPair elements, or as unparseable.
 */
module DataProcessor {

  import opened Wrappers
  import opened Text
  import opened Records

  /** A child element found by `qa.find(...)`: its `text`, `None` for an element without
      text. */
  datatype Element = Element(text: Option<string>)

  /** One `QAPair` element: its `Question` and `Answer` children, `None` when missing. */
  datatype QAPairElem = QAPairElem(question: Option<Element>, answer: Option<Element>)

  /** A file as `ET.parse` sees it: rejected, or its QAPair elements in document order. */
  datatype XmlFile = Unparseable | Parsed(pairs: seq<QAPairElem>)

  /** One entry of `os.listdir(dir_path)`: a file name and the file's contents. */
  datatype DirEntry = DirEntry(name: string, content: XmlFile)

  /** The directories that exist, by path, each with its listing in `os.listdir` order. */
  type Dataset = map<string, seq<DirEntry>>

  const DataDir: string := "data"

  const MedquadPath: string := JoinPath(DataDir, "MedQuAD-master")

  const Directories: seq<string> := [
    "1_CancerGov_QA", "2_GARD_QA", "3_GHR_QA", "4_MPlus_Health_Topics_QA",
    "5_NIDDK_QA", "6_NINDS_QA", "7_SeniorHealth_QA", "8_CancerGov_QA",
    "9_CDC_QA", "10_MPlus_ADAM_QA", "11_MPlusDrugs_QA"
  ]

  /** `elem.text.strip() if elem.text else ""`. */
  function ElementText(e: Element): string {
    if e.text.Some? then Strip(e.text.value) else ""
  }

  /** The element exists and has text that is not all whitespace. */
  predicate HasContent(e: Option<Element>) {
    e.Some? && e.value.text.Some? && !AllSpace(e.value.text.value)
  }

  /** Neither empty nor starting or ending with whitespace: what `strip` leaves of a
      non-blank text. */
  predicate Trimmed(s: string) {
    s != [] && !IsSpace(s[0]) && !IsSpace(s[|s| - 1])
  }

  /** A record the parser can produce: stripped, non-empty question and answer. */
  predicate WellFormed(rec: Record) {
    Trimmed(rec.question) && Trimmed(rec.answer)
  }

  /** The keep rule of `_parse_single_xml`: a pair becomes a record exactly when both
      children exist and neither text is blank; the record holds the stripped texts, the
      directory name as source and the file's base name. */
  function KeepPair(qa: QAPairElem, source: string, file: string): (r: Option<Record>)
    ensures r.Some? <==> HasContent(qa.question) && HasContent(qa.answer)
    ensures r.Some? ==> WellFormed(r.value) && r.value.source == source && r.value.file == file
    ensures r.Some? ==>
      r.value.question == Strip(qa.question.value.text.value) && r.value.answer == Strip(qa.answer.value.text.value)
  {
    if qa.question.Some? && qa.answer.Some? then
      var question := ElementText(qa.question.value);
      var answer := ElementText(qa.answer.value);
      if question != "" && answer != "" then Some(Record(question, answer, source, file)) else None
    else None
  }

  /** The records one pair contributes: its record when kept, nothing otherwise. */
  function PairRecords(qa: QAPairElem, source: string, file: string): (rs: seq<Record>)
    ensures |rs| <= 1
    ensures forall k :: 0 <= k < |rs| ==> WellFormed(rs[k]) && rs[k].source == source && rs[k].file == file
  {
    match KeepPair(qa, source, file)
    case Some(rec) => assert WellFormed(rec); [rec]
    case None => []
  }

  /** The loop over `root.findall('.//QAPair')`. */
  function ParsePairs(pairs: seq<QAPairElem>, source: string, file: string): (rs: seq<Record>)
    ensures |rs| <= |pairs|
    ensures forall k :: 0 <= k < |rs| ==> WellFormed(rs[k]) && rs[k].source == source && rs[k].file == file
  {
    var f := qa => PairRecords(qa, source, file);
    ConcatMapShort(f, pairs);
    ConcatMapAll(f, pairs, rec => WellFormed(rec) && rec.source == source && rec.file == file);
    ConcatMap(f, pairs)
  }

  /** Kept records keep the document order: the records of consecutive runs of pairs are
      the concatenation of each run's records. */
  lemma ParsePairsAppend(a: seq<QAPairElem>, b: seq<QAPairElem>, source: string, file: string)
    ensures ParsePairs(a + b, source, file) == ParsePairs(a, source, file) + ParsePairs(b, source, file)
  {
    ConcatMapAppend(qa => PairRecords(qa, source, file), a, b);
  }

  /** A single pair yields its record when the keep rule holds and nothing otherwise. */
  lemma ParsePairsSingle(qa: QAPairElem, source: string, file: string)
    ensures var kept := KeepPair(qa, source, file);
      ParsePairs([qa], source, file) == if kept.Some? then [kept.value] else []
  {
    ConcatMapSingle(qa => PairRecords(qa, source, file), qa);
  }

  /** `_parse_single_xml(file_path, source)`: a file `ET.parse` rejects contributes no
      records; the keep rule cannot raise, so an accepted file contributes all its kept
      pairs. */
  function ParseSingleXml(content: XmlFile, filePath: string, source: string): (rs: seq<Record>)
    ensures content.Unparseable? ==> rs == []
    ensures content.Parsed? ==> rs == ParsePairs(content.pairs, source, Basename(filePath))
  {
    match content
    case Unparseable => []
    case Parsed(pairs) => ParsePairs(pairs, source, Basename(filePath))
  }

  /** The records one listed entry contributes: only names ending in `.xml` are read. */
  function EntryRecords(e: DirEntry, dirPath: string, source: string): (rs: seq<Record>)
    ensures forall k :: 0 <= k < |rs| ==> WellFormed(rs[k]) && rs[k].source == source
    ensures !EndsWith(e.name, ".xml") ==> rs == []
  {
    if EndsWith(e.name, ".xml") then ParseSingleXml(e.content, JoinPath(dirPath, e.name), source) else []
  }

  /** The records of one directory listing, in listing order. */
  function ParseEntries(entries: seq<DirEntry>, dirPath: string, source: string): (rs: seq<Record>)
    ensures forall k :: 0 <= k < |rs| ==> WellFormed(rs[k]) && rs[k].source == source
  {
    var f := e => EntryRecords(e, dirPath, source);
    ConcatMapAll(f, entries, rec => WellFormed(rec) && rec.source == source);
    ConcatMap(f, entries)
  }

  /** The records one listed directory contributes: nothing when it does not exist. */
  function DirectoryRecords(dataset: Dataset, dir: string): (rs: seq<Record>)
    ensures forall k :: 0 <= k < |rs| ==> WellFormed(rs[k]) && rs[k].source == dir
    ensures JoinPath(MedquadPath, dir) !in dataset ==> rs == []
  {
    var dirPath := JoinPath(MedquadPath, dir);
    if dirPath in dataset then ParseEntries(dataset[dirPath], dirPath, dir) else []
  }

  /** The records of the listed directories that exist, in list order. */
  function ParseDirectories(dataset: Dataset, dirs: seq<string>): (rs: seq<Record>)
    ensures forall k :: 0 <= k < |rs| ==> WellFormed(rs[k]) && rs[k].source in dirs
  {
    var f := dir => DirectoryRecords(dataset, dir);
    ConcatMapAll(f, dirs, rec => WellFormed(rec) && rec.source in dirs);
    ConcatMap(f, dirs)
  }

  /** `parse_xml_files()`: every record is well formed and names one of the eleven
      directories as its source. */
  function ParseXmlFiles(dataset: Dataset): (rs: seq<Record>)
    ensures forall k :: 0 <= k < |rs| ==> WellFormed(rs[k]) && rs[k].source in Directories
  {
    ParseDirectories(dataset, Directories)
  }

  /** Directories contribute in list order: the records of a split list are the records of
      each part, concatenated. */
  lemma ParseDirectoriesAppend(dataset: Dataset, a: seq<string>, b: seq<string>)
    ensures ParseDirectories(dataset, a + b) == ParseDirectories(dataset, a) + ParseDirectories(dataset, b)
  {
    ConcatMapAppend(dir => DirectoryRecords(dataset, dir), a, b);
  }

  /** Files contribute in listing order, and a file whose name does not end in `.xml`
      contributes nothing. */
  lemma ParseEntriesAppend(a: seq<DirEntry>, b: seq<DirEntry>, dirPath: string, source: string)
    ensures ParseEntries(a + b, dirPath, source) == ParseEntries(a, dirPath, source) + ParseEntries(b, dirPath, source)
  {
    ConcatMapAppend(e => EntryRecords(e, dirPath, source), a, b);
  }

  lemma SkipsNonXml(e: DirEntry, dirPath: string, source: string)
    requires !EndsWith(e.name, ".xml")
    ensures ParseEntries([e], dirPath, source) == []
  {
    ConcatMapSingle(e => EntryRecords(e, dirPath, source), e);
  }

  /** The records of one listed file carry the listed name, since `os.listdir` names hold
      no `/`. */
  lemma FileRecordsCarryName(e: DirEntry, dirPath: string, source: string)
    requires '/' !in e.name
    ensures var rs := ParseSingleXml(e.content, JoinPath(dirPath, e.name), source);
      forall k :: 0 <= k < |rs| ==> rs[k].file == e.name
  {
    BasenameOfJoin(dirPath, e.name);
  }

  predicate FromXmlFile(rec: Record) {
    EndsWith(rec.file, ".xml")
  }

  /** Every record read from a listing names a `.xml` file. */
  lemma {:induction false} EntryRecordsNameXmlFiles(entries: seq<DirEntry>, dirPath: string, source: string)
    requires forall k :: 0 <= k < |entries| ==> '/' !in entries[k].name
    ensures forall rec :: rec in ParseEntries(entries, dirPath, source) ==> FromXmlFile(rec)
  {
    if entries != [] {
      var e := entries[0];
      var xml := EndsWith(e.name, ".xml");
      var head := if xml then ParseSingleXml(e.content, JoinPath(dirPath, e.name), source) else [];
      var tail := ParseEntries(entries[1..], dirPath, source);
      EntryRecordsNameXmlFiles(entries[1..], dirPath, source);
      if xml {
        FileRecordsCarryName(e, dirPath, source);
      }
      var rs := ParseEntries(entries, dirPath, source);
      assert rs == head + tail;
      forall rec | rec in rs ensures FromXmlFile(rec) {
        if rec in head {
          var k :| 0 <= k < |head| && head[k] == rec;
          assert xml && head[k].file == e.name;
        } else {
          assert rec in tail;
        }
      }
    }
  }

  /** `_get_sample_data()`. The answers are written in pieces only to keep each literal
      short. */
  const SampleData: seq<Record> := [
    Record("What is diabetes?",
      "Diabetes is a group of metabolic "
      + "disorders characterized by high blood "
      + "sugar levels over a prolonged period.",
      "sample", "sample.xml"),
    Record("What are the symptoms of hypertension?",
      "High blood pressure often has no "
      + "symptoms. Some people may experience "
      + "headaches, shortness of breath, or "
      + "nosebleeds.",
      "sample", "sample.xml"),
    Record("How is asthma treated?",
      "Asthma is treated with bronchodilators "
      + "for quick relief and anti-inflammatory "
      + "medications for long-term control.",
      "sample", "sample.xml")
  ]

  /** A text that starts and ends with a non-space character is trimmed, however it is
      split. */
  lemma TrimmedConcat(a: string, b: string)
    requires a != [] && !IsSpace(a[0]) && b != [] && !IsSpace(b[|b| - 1])
    ensures Trimmed(a + b)
  {
  }

  lemma SampleDataWellFormed()
    ensures forall k :: 0 <= k < |SampleData| ==> WellFormed(SampleData[k])
  {
    TrimmedConcat("Diabetes is a group of metabolic ",
      "disorders characterized by high blood " + "sugar levels over a prolonged period.");
    TrimmedConcat("High blood pressure often has no ",
      "symptoms. Some people may experience " + "headaches, shortness of breath, or " + "nosebleeds.");
    TrimmedConcat("Asthma is treated with bronchodilators ",
      "for quick relief and anti-inflammatory " + "medications for long-term control.");
  }

  /** The samples' source names none of the eleven directories. */
  lemma SampleIsNoDirectory()
    ensures SampleData[0].source !in Directories
  {
    assert SampleData[0].source == "sample";
  }

  /** `process_dataset()` after the download: the parsed records, or exactly the three
      samples when nothing was parsed. The samples are never mistaken for parsed records
      (their source is no directory), and the result is never empty. */
  function ProcessDataset(dataset: Dataset): (rs: seq<Record>)
    ensures |rs| > 0
    ensures forall k :: 0 <= k < |rs| ==> WellFormed(rs[k])
    ensures rs == SampleData <==> ParseXmlFiles(dataset) == []
    ensures rs != SampleData ==> rs == ParseXmlFiles(dataset)
  {
    var parsed := ParseXmlFiles(dataset);
    if parsed == [] then
      SampleDataWellFormed();
      SampleData
    else
      assert parsed != SampleData by {
        SampleIsNoDirectory();
        assert parsed[0].source in Directories;
        assert parsed[0].source != SampleData[0].source;
      }
      parsed
  }
}
