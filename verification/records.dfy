/** The corpus entries and the result dictionaries the retriever hands out. */
module Records {

  /** One parsed question/answer pair: the row of the processed data frame. */
  datatype Record = Record(question: string, answer: string, source: string, file: string)

  /** A retrieval result dictionary: question, answer, source, score and 1-based rank
      (rank 0 only on the fallback answer). */
  datatype SearchResult = SearchResult(question: string, answer: string, source: string, score: real, rank: int)

  function ResultFor(rec: Record, score: real, rank: int): SearchResult {
    SearchResult(rec.question, rec.answer, rec.source, score, rank)
  }
}
